/** All event sets together: event_allocator and compacted_event_set as a state machine.  Allocating and
    disposing of a set run with the scheduler locked and are one step each.  Freeing does not lock it, so a
    thread that frees an event takes the steps Load, Store, Test and Dispose, and others may run between. */
module EventPool {
  import opened Lists
  import opened IpcList
  import EventSpec
  import opened PackedSpec

  type Info = EventSpec.Info

  datatype Kernel = Kernel(flags: set<nat>, waiters: seq<Tid>)

  /** Where a thread is in CompactedEventSet::free: bits.reset(bit) has read the word and will write it
      back without the bit; the bit is reset; the set was found empty and will be disposed of. */
  datatype Stage<Id> = Loaded(home: Id, bit: nat, word: seq<bool>) | Cleared(home: Id) | Empty(home: Id)

  /** `sets` is the list eventSets; `bits` and `kernel` are the fields of every set created so far; `info`
      are the event fields of the threads, which all kernel events share; `live` are the events handed out
      and not being destroyed; `busy` are the threads that free an event. */
  datatype Pool<Id(==)> = Pool(
    sets: seq<Id>,
    bits: map<Id, seq<bool>>,
    kernel: map<Id, Kernel>,
    info: seq<Info>,
    live: set<(Id, nat)>,
    busy: map<Tid, Stage<Id>>)

  predicate Full(w: seq<bool>) {
    forall b :: 0 <= b < |w| ==> w[b]
  }

  predicate None(w: seq<bool>) {
    forall b :: 0 <= b < |w| ==> !w[b]
  }

  /** The lowest bit that is not set. */
  function LowestClear(w: seq<bool>, k: nat): (b: nat)
    requires k <= |w|
    ensures k <= b <= |w| && (forall i :: k <= i < b ==> w[i]) && (b < |w| ==> !w[b])
    decreases |w| - k
  {
    if k < |w| && w[k] then LowestClear(w, k + 1) else k
  }

  /** The first set of the list that is not full. */
  function FirstOpen<Id>(sets: seq<Id>, bits: map<Id, seq<bool>>, k: nat): (r: nat)
    requires k <= |sets| && forall s :: s in sets ==> s in bits
    ensures k <= r <= |sets| && (forall i :: k <= i < r ==> Full(bits[sets[i]]))
            && (r < |sets| ==> !Full(bits[sets[r]]))
    decreases |sets| - k
  {
    if k < |sets| && Full(bits[sets[k]]) then FirstOpen(sets, bits, k + 1) else k
  }

  function NoBits(): seq<bool> {
    seq(N, _ => false)
  }

  /** EventAllocator::alloc; `made` is the set that is created if need be. */
  function AllocSpec<Id>(p: Pool<Id>, made: Id): (Pool<Id>, (Id, nat))
    requires forall s :: s in p.sets ==> s in p.bits
  {
    var k := FirstOpen(p.sets, p.bits, 0);
    if k < |p.sets| then
      var s, b := p.sets[k], LowestClear(p.bits[p.sets[k]], 0);
      (p.(bits := p.bits[s := Raised(p.bits[s], b)], live := p.live + {(s, b)}), (s, b))
    else
      (p.(sets := p.sets + [made], bits := p.bits[made := Raised(NoBits(), 0)],
          kernel := p.kernel[made := Kernel({}, [])], live := p.live + {(made, 0)}),
       (made, 0))
  }

  function Raised(w: seq<bool>, b: nat): (r: seq<bool>)
    ensures |r| == |w| && forall i :: 0 <= i < |w| ==> r[i] == (w[i] || i == b)
  {
    if b < |w| then w[b := true] else w
  }

  function Reset(w: seq<bool>, b: nat): (r: seq<bool>)
    ensures |r| == |w| && forall i :: 0 <= i < |w| ==> r[i] == (w[i] && i != b)
  {
    if b < |w| then w[b := false] else w
  }

  /** The kernel event of a set as a state of its own. */
  function View<Id>(p: Pool<Id>, s: Id): EventSpec.State
    requires s in p.kernel
  {
    EventSpec.State(p.kernel[s].flags, p.kernel[s].waiters, p.info)
  }

  function Update<Id>(p: Pool<Id>, s: Id, d: EventSpec.State): Pool<Id> {
    p.(kernel := p.kernel[s := Kernel(d.flags, d.waiters)], info := d.info)
  }

  datatype Action<Id> =
    | Alloc(made: Id)
    | Load(t: Tid, home: Id, bit: nat)
    | Store(t: Tid)
    | Test(t: Tid)
    | Dispose(t: Tid)
    | SetEvent(home: Id, bit: nat)
    | WaitEvent(t: Tid, home: Id, bit: nat, timeout: int)
    | ExpireWait(t: Tid, home: Id, bit: nat)

  ghost predicate Waiting<Id>(p: Pool<Id>, t: Tid) {
    exists s :: s in p.kernel && t in p.kernel[s].waiters
  }

  /** An event is used only while it lives, and a thread does one thing at a time. */
  ghost predicate Enabled<Id>(p: Pool<Id>, a: Action<Id>) {
    match a
    case Alloc(made) => made !in p.bits && made !in p.kernel
    case Load(t, s, b) => t !in p.busy && (s, b) in p.live && s in p.bits
    case Store(t) => t in p.busy && p.busy[t].Loaded? && p.busy[t].home in p.bits
    case Test(t) => t in p.busy && p.busy[t].Cleared? && p.busy[t].home in p.bits
    case Dispose(t) => t in p.busy && p.busy[t].Empty?
    case SetEvent(s, b) => s in p.kernel && (s, b) in p.live
    case WaitEvent(t, s, b, _) => s in p.kernel && (s, b) in p.live && t < |p.info| && !Waiting(p, t)
    case ExpireWait(t, s, b) => s in p.kernel && t in p.kernel[s].waiters && t < |p.info| && p.info[t] == Want(b)
  }

  /** The action on the kernel event of its set. */
  predicate IsKernel<Id>(a: Action<Id>) {
    a.SetEvent? || a.WaitEvent? || a.ExpireWait?
  }

  function OnBit<Id>(a: Action<Id>): PackedSpec.Action
    requires IsKernel(a)
  {
    match a
    case SetEvent(_, b) => SetBit(b)
    case WaitEvent(t, _, b, timeout) => WaitBit(t, b, timeout)
    case ExpireWait(t, _, b) => ExpireBit(t, b)
  }

  ghost function Step<Id>(p: Pool<Id>, a: Action<Id>, prio: Tid -> nat): Pool<Id>
    requires Inv(p) && Enabled(p, a)
  {
    match a
    case Alloc(made) => AllocSpec(p, made).0
    case Load(t, s, b) => p.(live := p.live - {(s, b)}, busy := p.busy[t := Loaded(s, b, p.bits[s])])
    case Store(t) =>
      var g := p.busy[t];
      p.(bits := p.bits[g.home := Reset(g.word, g.bit)], busy := p.busy[t := Cleared(g.home)])
    case Test(t) =>
      var s := p.busy[t].home;
      if None(p.bits[s]) then p.(busy := p.busy[t := Empty(s)]) else p.(busy := p.busy - {t})
    case Dispose(t) => p.(sets := Without(p.sets, p.busy[t].home), busy := p.busy - {t})
    case _ =>
      KernelAllowed(p, a);
      Update(p, a.home, KernelStep(View(p, a.home), OnBit(a), prio))
  }

  // ---------- what every run keeps ----------

  ghost predicate Shape<Id>(p: Pool<Id>) {
    && Distinct(p.sets)
    && (forall s :: s in p.sets ==> s in p.bits)
    && p.bits.Keys == p.kernel.Keys
    && (forall s :: s in p.bits ==> |p.bits[s]| == N)
    && (forall e :: e in p.live ==> e.0 in p.bits && e.1 < N)
    && (forall t :: t in p.busy ==> StageOk(p.bits, p.busy[t]))
  }

  predicate StageOk<Id>(bits: map<Id, seq<bool>>, g: Stage<Id>) {
    g.home in bits && (g.Loaded? ==> g.bit < N && |g.word| == N)
  }

  /** Every kernel event is used one bit at a time, and no thread waits for two of them. */
  ghost predicate Kernels<Id>(p: Pool<Id>) {
    && (forall s :: s in p.kernel ==> Packed(View(p, s)))
    && (forall s, x, t :: s in p.kernel && x in p.kernel && s != x && t in p.kernel[s].waiters ==>
          t !in p.kernel[x].waiters)
  }

  ghost predicate Inv<Id>(p: Pool<Id>) {
    Shape(p) && Kernels(p)
  }

  lemma WaitingHere<Id>(p: Pool<Id>, s: Id, t: Tid)
    requires s in p.kernel
    ensures t in p.kernel[s].waiters ==> Waiting(p, t)
  {
  }

  lemma KernelAllowed<Id>(p: Pool<Id>, a: Action<Id>)
    requires Inv(p) && Enabled(p, a) && IsKernel(a)
    ensures Packed(View(p, a.home)) && Allowed(View(p, a.home), OnBit(a))
  {
    if a.WaitEvent? { WaitingHere(p, a.home, a.t); }
  }

  // ---------- the kernel events ----------

  /** The flag of an event. */
  function FlagOf<Id>(p: Pool<Id>, s: Id, b: nat): AutoReset {
    if s in p.kernel then Bit(View(p, s), b) else AutoReset(false, [])
  }

  /** The action changes the fields of its own thread at most, and only its own thread begins to wait. */
  lemma KernelFrame(s: EventSpec.State, a: PackedSpec.Action, prio: Tid -> nat)
    requires Packed(s) && Allowed(s, a)
    ensures var d := KernelStep(s, a, prio);
            && |d.info| == |s.info|
            && (forall t :: 0 <= t < |s.info| && d.info[t] != s.info[t] ==> a.WaitBit? && t == a.t)
            && (forall t :: t in d.waiters ==> t in s.waiters || (a.WaitBit? && t == a.t))
  {
    match a
    case SetBit(b) => SetRefines(s, b);
    case WaitBit(t, b, timeout) =>
      EventSpec.RecvInv(s, t, Want(b), timeout, Fifo, prio);
      InsertKeeps(s.waiters, t, Fifo, prio);
    case ExpireBit(t, _) => RemoveKeeps(s.waiters, t);
  }

  /** A kernel event looks the same when only threads that do not wait for it have changed. */
  lemma OtherKernel(s: EventSpec.State, info: seq<Info>)
    requires Packed(s) && |info| == |s.info| && forall t :: t in s.waiters && t < |info| ==> info[t] == s.info[t]
    ensures Packed(s.(info := info)) && forall b: nat :: Bit(s.(info := info), b) == Bit(s, b)
  {
    forall b: nat ensures Bit(s.(info := info), b) == Bit(s, b) {
      SelectSame(s.waiters, WaitsFor(s.info, b), WaitsFor(info, b));
    }
  }

  /** A step on one kernel event: that flag makes its step, and no other flag of this or of any other
      event set changes. */
  lemma KernelRefines<Id>(p: Pool<Id>, a: Action<Id>, prio: Tid -> nat)
    requires Inv(p) && Enabled(p, a) && IsKernel(a)
    ensures Kernels(Step(p, a, prio)) && Step(p, a, prio).kernel.Keys == p.kernel.Keys
    ensures forall s, b: nat :: s in p.kernel ==>
              FlagOf(Step(p, a, prio), s, b) ==
              if s == a.home && b == a.bit then FlagStep(FlagOf(p, s, b), OnBit(a)) else FlagOf(p, s, b)
  {
    KernelAllowed(p, a);
    var v, x := View(p, a.home), OnBit(a);
    StepRefines(v, x, prio);
    KernelFrame(v, x, prio);
    OneEventEach(p, a, prio);
    Stepped(p, a, prio);
    var q := Step(p, a, prio);
    hide KernelStep, Packed, Bit, FlagStep, Allowed, Inv, Enabled, Step;
    forall s | s in p.kernel && s != a.home
      ensures Packed(View(q, s)) && forall b: nat :: Bit(View(q, s), b) == Bit(View(p, s), b)
    {
      OthersKept(p, q, a, s);
    }
  }

  lemma Stepped<Id>(p: Pool<Id>, a: Action<Id>, prio: Tid -> nat)
    requires Inv(p) && Enabled(p, a) && IsKernel(a)
    ensures Packed(View(p, a.home)) && Allowed(View(p, a.home), OnBit(a)) && a.home in Step(p, a, prio).kernel
    ensures View(Step(p, a, prio), a.home) == KernelStep(View(p, a.home), OnBit(a), prio)
  {
    KernelAllowed(p, a);
    hide KernelStep, Packed, Inv, Enabled, Allowed, OnBit;
  }

  /** No thread waits for two events. */
  lemma OneEventEach<Id>(p: Pool<Id>, a: Action<Id>, prio: Tid -> nat)
    requires Inv(p) && Enabled(p, a) && IsKernel(a)
    ensures var q := Step(p, a, prio);
            && q.kernel.Keys == p.kernel.Keys && |q.info| == |p.info|
            && (forall s :: s in p.kernel && s != a.home ==> q.kernel[s] == p.kernel[s])
            && (forall t :: 0 <= t < |p.info| && q.info[t] != p.info[t] ==> a.WaitEvent? && t == a.t)
            && (forall s, y, t :: s in q.kernel && y in q.kernel && s != y && t in q.kernel[s].waiters ==>
                  t !in q.kernel[y].waiters)
  {
    KernelAllowed(p, a);
    KernelFrame(View(p, a.home), OnBit(a), prio);
    hide KernelStep, Packed, Bit, FlagStep, Allowed;
    var q := Step(p, a, prio);
    forall s, y, t | s in q.kernel && y in q.kernel && s != y && t in q.kernel[s].waiters
      ensures t !in q.kernel[y].waiters
    {
      if a.WaitEvent? && t == a.t { assert !Waiting(p, t); }
    }
  }

  lemma OthersKept<Id>(p: Pool<Id>, q: Pool<Id>, a: Action<Id>, s: Id)
    requires Inv(p) && Enabled(p, a) && IsKernel(a) && s in p.kernel && s != a.home
    requires s in q.kernel && q.kernel[s] == p.kernel[s] && |q.info| == |p.info|
    requires forall t :: 0 <= t < |p.info| && q.info[t] != p.info[t] ==> a.WaitEvent? && t == a.t
    ensures Packed(View(q, s)) && forall b: nat :: Bit(View(q, s), b) == Bit(View(p, s), b)
  {
    if a.WaitEvent? { assert a.t in p.kernel[s].waiters ==> Waiting(p, a.t); }
    OtherKernel(View(p, s), q.info);
    assert View(p, s).(info := q.info) == View(q, s);
  }

  // ---------- who owns which bit ----------

  /** A thread has read the word in which bit `b` of set `s` is still set, and will reset it. */
  ghost predicate Pending<Id>(p: Pool<Id>, s: Id, b: nat) {
    exists t :: t in p.busy && p.busy[t].Loaded? && p.busy[t].home == s && p.busy[t].bit == b
  }

  /** Exactly the live events, and those that are being freed, have their bits set, each its own. */
  ghost predicate Owned<Id>(p: Pool<Id>) {
    && (forall s, b: nat :: s in p.bits && b < |p.bits[s]| ==> (p.bits[s][b] <==> (s, b) in p.live || Pending(p, s, b)))
    && (forall t :: t in p.busy && p.busy[t].Loaded? ==> (p.busy[t].home, p.busy[t].bit) !in p.live)
    && (forall t, u :: t in p.busy && u in p.busy && t != u && p.busy[t].Loaded? && p.busy[u].Loaded? ==>
          p.busy[t].home != p.busy[u].home || p.busy[t].bit != p.busy[u].bit)
  }

  /** Nobody has changed the other bits since the word was read. */
  predicate Unchanged<Id>(p: Pool<Id>, t: Tid)
    requires t in p.busy && p.busy[t].Loaded? && p.busy[t].home in p.bits
  {
    var g := p.busy[t];
    forall b :: 0 <= b < |g.word| && b < |p.bits[g.home]| && b != g.bit ==> g.word[b] == p.bits[g.home][b]
  }

  // ---------- one step ----------

  /** A new set is made only when there is no other. */
  predicate CanAlloc<Id(==)>(p: Pool<Id>, made: Id)
    requires forall s :: s in p.sets ==> s in p.bits
  {
    made !in p.bits || FirstOpen(p.sets, p.bits, 0) < |p.sets|
  }

  lemma AllocIs<Id>(p: Pool<Id>, made: Id)
    requires Shape(p) && CanAlloc(p, made)
    ensures var (q, e) := AllocSpec(p, made);
            && e.0 in q.sets && e.0 in q.bits && e.1 < N && (e.0 in p.bits ==> !p.bits[e.0][e.1])
            && q.live == p.live + {e} && q.info == p.info && q.busy == p.busy
            && q.bits.Keys == p.bits.Keys + {e.0}
            && (forall s :: s in p.bits && s != e.0 ==> q.bits[s] == p.bits[s])
            && q.bits[e.0] == Raised(if e.0 in p.bits then p.bits[e.0] else NoBits(), e.1)
            && (if e.0 in p.bits then q.sets == p.sets && q.kernel == p.kernel
                else e.0 == made && q.sets == p.sets + [made] && q.kernel == p.kernel[made := Kernel({}, [])])
  {
    var k := FirstOpen(p.sets, p.bits, 0);
    if k < |p.sets| {
      var w := p.bits[p.sets[k]];
      assert LowestClear(w, 0) < |w|;
    }
  }

  /** Which event is handed out: the lowest bit that is clear in the first set of the list that is not full;
      only when all of them are full a new set joins the list, and its first event is handed out. */
  lemma AllocPlace<Id>(p: Pool<Id>, made: Id)
    requires Shape(p) && made !in p.bits
    ensures var (q, e) := AllocSpec(p, made);
            && (e.0 in p.sets <==> exists s :: s in p.sets && !Full(p.bits[s]))
            && (e.0 in p.sets ==>
                  && e.1 < |p.bits[e.0]| && !p.bits[e.0][e.1] && (forall b :: 0 <= b < e.1 ==> p.bits[e.0][b])
                  && exists i :: 0 <= i < |p.sets| && p.sets[i] == e.0
                                 && forall j :: 0 <= j < i ==> Full(p.bits[p.sets[j]]))
            && q.sets == (if e.0 in p.sets then p.sets else p.sets + [made])
            && (e.0 !in p.sets ==> e == (made, 0))
  {
    var k := FirstOpen(p.sets, p.bits, 0);
    if k < |p.sets| {
      assert p.sets[k] in p.sets;
    } else {
      forall s | s in p.sets ensures Full(p.bits[s]) {
        var i :| 0 <= i < |p.sets| && p.sets[i] == s;
      }
    }
  }

  lemma AllocShape<Id>(p: Pool<Id>, made: Id)
    requires Shape(p) && CanAlloc(p, made)
    ensures Shape(AllocSpec(p, made).0)
  {
    AllocIs(p, made);
    hide AllocSpec;
  }

  lemma BusyShape<Id>(p: Pool<Id>, a: Action<Id>, prio: Tid -> nat)
    requires Inv(p) && Enabled(p, a) && (a.Load? || a.Store? || a.Test? || a.Dispose?)
    ensures Shape(Step(p, a, prio))
  {
    Lives(p, a);
    hide Kernels, Enabled;
    if a.Dispose? {
      WithoutIs(p.sets, p.busy[a.t].home);
      var q := Step(p, a, prio);
      assert Distinct(q.sets);
      assert forall s :: s in q.sets ==> s in q.bits;
      assert q.bits.Keys == q.kernel.Keys;
      assert forall t :: t in q.busy ==> StageOk(q.bits, q.busy[t]);
    }
  }

  lemma Lives<Id>(p: Pool<Id>, a: Action<Id>)
    requires Inv(p) && Enabled(p, a)
    ensures a.Load? ==> (a.home, a.bit) in p.live && a.t !in p.busy && a.home in p.bits && a.bit < N
    ensures a.Store? ==> a.t in p.busy && p.busy[a.t].Loaded? && StageOk(p.bits, p.busy[a.t])
    ensures a.Test? ==> a.t in p.busy && p.busy[a.t].Cleared? && StageOk(p.bits, p.busy[a.t])
    ensures a.Dispose? ==> a.t in p.busy && p.busy[a.t].Empty? && StageOk(p.bits, p.busy[a.t])
  {
  }

  lemma StepShape<Id>(p: Pool<Id>, a: Action<Id>, prio: Tid -> nat)
    requires Inv(p) && Enabled(p, a)
    ensures Shape(Step(p, a, prio))
  {
    if a.Alloc? {
      AllocShape(p, a.made);
    } else if IsKernel(a) {
      OneEventEach(p, a, prio);
      KernelAllowed(p, a);
      hide KernelStep, Enabled, Kernels;
    } else {
      BusyShape(p, a, prio);
    }
  }

  /** A flag of a set that has just been created is not set, and nobody waits for it. */
  lemma NewFlag(info: seq<Info>)
    ensures Packed(EventSpec.State({}, [], info))
    ensures forall b: nat :: Bit(EventSpec.State({}, [], info), b) == AutoReset(false, [])
  {
  }

  lemma AllocFlags<Id>(p: Pool<Id>, made: Id)
    requires Inv(p) && CanAlloc(p, made)
    ensures var q := AllocSpec(p, made).0;
            Kernels(q) && forall s, b: nat :: s in q.kernel ==> FlagOf(q, s, b) == FlagOf(p, s, b)
  {
    NewFlag(p.info);
    AllocIs(p, made);
    hide AllocSpec, Packed, Bit;
    var q := AllocSpec(p, made).0;
    forall s | s in p.kernel ensures s in q.kernel && View(q, s) == View(p, s) {}
    assert made !in p.kernel && made in q.kernel ==> View(q, made) == EventSpec.State({}, [], p.info);
  }

  lemma BusyFlags<Id>(p: Pool<Id>, a: Action<Id>, prio: Tid -> nat)
    requires Inv(p) && Enabled(p, a) && (a.Load? || a.Store? || a.Test? || a.Dispose?)
    ensures var q := Step(p, a, prio);
            && q.kernel == p.kernel && q.info == p.info
            && Kernels(q) && forall s, b: nat :: s in q.kernel ==> FlagOf(q, s, b) == FlagOf(p, s, b)
  {
    hide Packed, Bit, Shape;
    var q := Step(p, a, prio);
    forall s | s in p.kernel ensures View(q, s) == View(p, s) {}
  }

  /** Every step changes at most the flag it is about; allocating and freeing change none. */
  lemma StepFlags<Id>(p: Pool<Id>, a: Action<Id>, prio: Tid -> nat)
    requires Inv(p) && Enabled(p, a)
    ensures Kernels(Step(p, a, prio))
    ensures forall s, b: nat :: s in Step(p, a, prio).kernel ==>
              FlagOf(Step(p, a, prio), s, b) ==
              if IsKernel(a) && s == a.home && b == a.bit then FlagStep(FlagOf(p, s, b), OnBit(a)) else FlagOf(p, s, b)
  {
    if IsKernel(a) {
      KernelRefines(p, a, prio);
    } else if a.Alloc? {
      AllocFlags(p, a.made);
    } else {
      BusyFlags(p, a, prio);
    }
    hide Kernels, FlagOf, Shape;
  }

  lemma NewSets<Id>(p: Pool<Id>, a: Action<Id>, prio: Tid -> nat)
    requires Inv(p) && Enabled(p, a)
    ensures p.kernel.Keys <= Step(p, a, prio).kernel.Keys && (IsKernel(a) ==> a.home in p.kernel)
  {
    if a.Alloc? { AllocIs(p, a.made); }
    if IsKernel(a) { KernelAllowed(p, a); }
    hide AllocSpec, KernelStep;
  }

  /** Every step of every thread keeps the invariant. */
  lemma StepInv<Id>(p: Pool<Id>, a: Action<Id>, prio: Tid -> nat)
    requires Inv(p) && Enabled(p, a)
    ensures Inv(Step(p, a, prio))
  {
    StepShape(p, a, prio);
    StepFlags(p, a, prio);
  }

  // ---------- ownership ----------

  /** What is handed out belongs to nobody else. */
  lemma AllocDistinct<Id>(p: Pool<Id>, made: Id)
    requires Inv(p) && Owned(p) && Enabled(p, Alloc(made))
    ensures AllocSpec(p, made).1 !in p.live && Owned(AllocSpec(p, made).0)
  {
    AllocIs(p, made);
    hide AllocSpec, Kernels, StageOk;
    var (q, e) := AllocSpec(p, made);
    NotPending(p, e.0, e.1);
    forall s, b: nat ensures Pending(q, s, b) <==> Pending(p, s, b) {}
    assert forall x :: x in q.live <==> x in p.live || x == e;
    hide Pending, Inv;
    forall s, b: nat | s in q.bits && b < |q.bits[s]| ensures q.bits[s][b] <==> (s, b) in q.live || Pending(q, s, b) {
      if s == e.0 && s !in p.bits { NoneOfNew(p, s, b); }
    }
  }

  lemma NoneOfNew<Id>(p: Pool<Id>, s: Id, b: nat)
    requires Inv(p) && s !in p.bits
    ensures (s, b) !in p.live && !Pending(p, s, b)
  {
    forall t | t in p.busy ensures p.busy[t].home != s {
      assert StageOk(p.bits, p.busy[t]);
    }
  }

  /** A bit that is not set is owned by nobody. */
  lemma NotPending<Id>(p: Pool<Id>, s: Id, b: nat)
    requires Inv(p) && Owned(p) && b < N && (s in p.bits ==> !p.bits[s][b])
    ensures (s, b) !in p.live && !Pending(p, s, b)
    ensures forall t :: t in p.busy && p.busy[t].Loaded? ==> (p.busy[t].home, p.busy[t].bit) != (s, b)
  {
    forall t | t in p.busy ensures p.busy[t].Loaded? ==> (p.busy[t].home, p.busy[t].bit) != (s, b) {
      assert StageOk(p.bits, p.busy[t]);
      assert p.busy[t].Loaded? ==> Pending(p, p.busy[t].home, p.busy[t].bit);
    }
  }

  lemma LoadOwned<Id>(p: Pool<Id>, t: Tid, s: Id, b: nat, prio: Tid -> nat)
    requires Inv(p) && Owned(p) && Enabled(p, Load(t, s, b))
    ensures Owned(Step(p, Load(t, s, b), prio))
  {
    var q := Step(p, Load(t, s, b), prio);
    forall x, c: nat | x in q.bits && c < |q.bits[x]| ensures q.bits[x][c] <==> (x, c) in q.live || Pending(q, x, c) {
      if Pending(p, x, c) {
        var u :| u in p.busy && p.busy[u].Loaded? && p.busy[u].home == x && p.busy[u].bit == c;
        assert q.busy[u] == p.busy[u];
      }
      if x == s && c == b { assert q.busy[t].Loaded? && Pending(q, x, c); }
      if Pending(q, x, c) && !(x == s && c == b) {
        var u :| u in q.busy && q.busy[u].Loaded? && q.busy[u].home == x && q.busy[u].bit == c;
        assert u in p.busy && p.busy[u] == q.busy[u];
      }
    }
  }

  /** Writing the word back keeps everybody's bits if and only if nobody has changed another bit of the
      set since the word was read. */
  lemma StoreOwned<Id>(p: Pool<Id>, t: Tid, prio: Tid -> nat)
    requires Inv(p) && Owned(p) && Enabled(p, Store(t))
    ensures Owned(Step(p, Store(t), prio)) <==> Unchanged(p, t)
  {
    var g, q := p.busy[t], Step(p, Store(t), prio);
    assert StageOk(p.bits, g);
    forall x, c: nat | x in q.bits ensures Pending(q, x, c) <==> Pending(p, x, c) && !(x == g.home && c == g.bit) {
      if Pending(p, x, c) && !(x == g.home && c == g.bit) {
        var u :| u in p.busy && p.busy[u].Loaded? && p.busy[u].home == x && p.busy[u].bit == c;
        assert u in q.busy && q.busy[u] == p.busy[u];
      }
      if Pending(q, x, c) {
        var u :| u in q.busy && q.busy[u].Loaded? && q.busy[u].home == x && q.busy[u].bit == c;
        assert u in p.busy && p.busy[u] == q.busy[u];
      }
    }
    assert Pending(p, g.home, g.bit);
    if Owned(q) {
      forall b | 0 <= b < |g.word| && b < |p.bits[g.home]| && b != g.bit ensures g.word[b] == p.bits[g.home][b] {
        assert q.bits[g.home][b] == g.word[b];
      }
    }
  }

  lemma SamePending<Id>(p: Pool<Id>, q: Pool<Id>)
    requires p.bits == q.bits && p.live == q.live && Owned(p)
    requires forall t :: t in p.busy && p.busy[t].Loaded? ==> t in q.busy && q.busy[t] == p.busy[t]
    requires forall t :: t in q.busy && q.busy[t].Loaded? ==> t in p.busy && q.busy[t] == p.busy[t]
    ensures Owned(q)
  {
    forall s, b: nat | s in p.bits ensures Pending(q, s, b) <==> Pending(p, s, b) {}
  }

  /** Of all steps only a write of a word that is out of date takes a bit from its owner, or gives one to
      nobody. */
  lemma StepOwned<Id>(p: Pool<Id>, a: Action<Id>, prio: Tid -> nat)
    requires Inv(p) && Owned(p) && Enabled(p, a)
    ensures Owned(Step(p, a, prio)) <==> (a.Store? ==> Unchanged(p, a.t))
  {
    match a
    case Alloc(made) => AllocDistinct(p, made);
    case Load(t, s, b) => LoadOwned(p, t, s, b, prio);
    case Store(t) => StoreOwned(p, t, prio);
    case _ =>
      if IsKernel(a) { KernelAllowed(p, a); }
      hide KernelStep, Owned;
      SamePending(p, Step(p, a, prio));
  }

  // ---------- which sets are listed ----------

  /** Every live event belongs to a set of the list. */
  ghost predicate Listed<Id>(p: Pool<Id>) {
    forall e :: e in p.live ==> e.0 in p.sets
  }

  /** Every set of the list has a bit in use, or a thread that is freeing its last event. */
  ghost predicate NoLeak<Id>(p: Pool<Id>) {
    forall s :: s in p.sets && s in p.bits ==> !None(p.bits[s]) || Leaving(p, s)
  }

  ghost predicate Leaving<Id>(p: Pool<Id>, s: Id) {
    exists t :: t in p.busy && p.busy[t].home == s
  }

  predicate HasLive<Id(==)>(live: set<(Id, nat)>, s: Id) {
    exists e :: e in live && e.0 == s
  }

  /** Only disposing of a set in which an event lives by then takes a live event off the list. */
  lemma StepListed<Id>(p: Pool<Id>, a: Action<Id>, prio: Tid -> nat)
    requires Inv(p) && Listed(p) && Enabled(p, a)
    ensures Listed(Step(p, a, prio)) <==> !(a.Dispose? && HasLive(p.live, p.busy[a.t].home))
  {
    if IsKernel(a) { KernelAllowed(p, a); }
    if a.Alloc? { AllocIs(p, a.made); }
    if a.Dispose? { WithoutIs(p.sets, p.busy[a.t].home); }
    hide KernelStep, AllocSpec, Kernels;
  }

  lemma StepNoLeak<Id>(p: Pool<Id>, a: Action<Id>, prio: Tid -> nat)
    requires Inv(p) && NoLeak(p) && Enabled(p, a)
    ensures NoLeak(Step(p, a, prio))
  {
    if IsKernel(a) {
      KernelAllowed(p, a);
    } else if a.Alloc? {
      AllocNoLeak(p, a.made);
    } else {
      BusyNoLeak(p, a, prio);
    }
    hide KernelStep, AllocSpec, Kernels, Shape, Leaving, None;
  }

  lemma AllocNoLeak<Id>(p: Pool<Id>, made: Id)
    requires Inv(p) && NoLeak(p) && made !in p.bits
    ensures NoLeak(AllocSpec(p, made).0)
  {
    AllocIs(p, made);
    var (q, e) := AllocSpec(p, made);
    assert q.bits[e.0][e.1];
    hide AllocSpec, Kernels;
    forall s | s in q.sets && s in q.bits ensures !None(q.bits[s]) || Leaving(q, s) {
      if s != e.0 && Leaving(p, s) {
        var t :| t in p.busy && p.busy[t].home == s;
        assert q.busy[t].home == s;
      }
    }
  }

  lemma BusyNoLeak<Id>(p: Pool<Id>, a: Action<Id>, prio: Tid -> nat)
    requires Inv(p) && NoLeak(p) && Enabled(p, a) && (a.Load? || a.Store? || a.Test? || a.Dispose?)
    ensures NoLeak(Step(p, a, prio))
  {
    if a.Dispose? { WithoutIs(p.sets, p.busy[a.t].home); }
    hide Kernels, Reset;
    var q := Step(p, a, prio);
    forall s | s in q.sets && s in q.bits ensures !None(q.bits[s]) || Leaving(q, s) {
      if a.Load? || a.Store? {
        assert q.busy[a.t].home == s || s != q.busy[a.t].home;
      }
      if s in p.sets && Leaving(p, s) {
        var t :| t in p.busy && p.busy[t].home == s;
        assert t in q.busy ==> q.busy[t].home == s;
      }
    }
  }

  // ---------- whole runs ----------

  function Initial<Id>(info: seq<Info>): Pool<Id> {
    Pool([], map[], map[], info, {}, map[])
  }

  ghost predicate Run<Id>(ps: seq<Pool<Id>>, acts: seq<Action<Id>>, info: seq<Info>, prio: Tid -> nat) {
    |ps| == |acts| + 1 && ps[0] == Initial(info) && forall k :: 0 <= k < |acts| ==> Follows(ps, acts, prio, k)
  }

  ghost predicate Follows<Id>(ps: seq<Pool<Id>>, acts: seq<Action<Id>>, prio: Tid -> nat, k: int)
    requires 0 <= k < |acts| && |ps| == |acts| + 1
  {
    Inv(ps[k]) ==> Enabled(ps[k], acts[k]) && ps[k + 1] == Step(ps[k], acts[k], prio)
  }

  lemma {:induction false} RunInv<Id>(ps: seq<Pool<Id>>, acts: seq<Action<Id>>, info: seq<Info>, prio: Tid -> nat,
                                      k: nat)
    requires Run(ps, acts, info, prio) && k <= |acts|
    ensures Inv(ps[k]) && NoLeak(ps[k])
  {
    if k > 0 {
      RunInv(ps, acts, info, prio, k - 1);
      assert Follows(ps, acts, prio, k - 1);
      StepInv(ps[k - 1], acts[k - 1], prio);
      StepNoLeak(ps[k - 1], acts[k - 1], prio);
    }
  }

  /** The flag of event (s, b) alone, under only those actions of the run that are about it. */
  function Alone<Id(==)>(acts: seq<Action<Id>>, s: Id, b: nat): AutoReset {
    if acts == [] then AutoReset(false, [])
    else
      var n := |acts| - 1;
      if IsKernel(acts[n]) && acts[n].home == s && acts[n].bit == b then
        FlagStep(Alone(acts[..n], s, b), OnBit(acts[n]))
      else Alone(acts[..n], s, b)
  }

  /** In every run of all threads, with allocating and freeing in between, each event is exactly where an
      independent auto-reset flag would be: nothing that happens to another event, of the same set or of
      another, makes a difference to it. */
  lemma {:induction false} RunIndependent<Id>(ps: seq<Pool<Id>>, acts: seq<Action<Id>>, info: seq<Info>,
                                              prio: Tid -> nat, s: Id, b: nat, k: nat)
    requires Run(ps, acts, info, prio) && k <= |acts|
    ensures Inv(ps[k]) && FlagOf(ps[k], s, b) == Alone(acts[..k], s, b)
  {
    if k > 0 {
      RunIndependent(ps, acts, info, prio, s, b, k - 1);
      assert Follows(ps, acts, prio, k - 1);
      StepInv(ps[k - 1], acts[k - 1], prio);
      StepFlags(ps[k - 1], acts[k - 1], prio);
      NewSets(ps[k - 1], acts[k - 1], prio);
      assert acts[..k][..k - 1] == acts[..k - 1];
      hide Inv, Step, Enabled, Bit, FlagStep, Kernels;
    }
  }

  /** No thread writes back a word that is out of date, as when bits.reset is atomic. */
  ghost predicate Atomic<Id>(ps: seq<Pool<Id>>, acts: seq<Action<Id>>, k: nat)
    requires k <= |acts| < |ps|
  {
    forall j :: 0 <= j < k && acts[j].Store? ==> WritesBack(ps[j], acts[j].t)
  }

  ghost predicate WritesBack<Id>(p: Pool<Id>, t: Tid) {
    t in p.busy && p.busy[t].Loaded? && p.busy[t].home in p.bits && Unchanged(p, t)
  }

  /** At the points 0 to `k` of a run every bit that is set belongs to one event, and every event has its bit. */
  ghost predicate OwnedUpTo<Id>(ps: seq<Pool<Id>>, k: nat)
    requires k < |ps|
  {
    forall j :: 0 <= j <= k ==> Owned(ps[j])
  }

  lemma StoreStage<Id>(p: Pool<Id>, a: Action<Id>)
    requires Inv(p) && Enabled(p, a) && a.Store?
    ensures a.t in p.busy && p.busy[a.t].Loaded? && p.busy[a.t].home in p.bits
  {
  }

  /** No bit is without its owner and no event without its bit, at every point of a run, if and only if no
      write in it is out of date. */
  lemma {:induction false} RunOwned<Id>(ps: seq<Pool<Id>>, acts: seq<Action<Id>>, info: seq<Info>, prio: Tid -> nat,
                                        k: nat)
    requires Run(ps, acts, info, prio) && k <= |acts|
    ensures OwnedUpTo(ps, k) <==> Atomic(ps, acts, k)
  {
    if k == 0 {
      InitialOwned<Id>(info);
      hide Owned, Inv;
    } else {
      RunOwned(ps, acts, info, prio, k - 1);
      RunInv(ps, acts, info, prio, k - 1);
      assert Follows(ps, acts, prio, k - 1);
      hide Inv, Owned, Step, Enabled, WritesBack, NoLeak, Run, OwnedUpTo, Atomic;
      OneMore(ps, acts, k);
      if Owned(ps[k - 1]) { OwnedNext(ps[k - 1], acts[k - 1], prio); }
    }
  }

  lemma InitialOwned<Id>(info: seq<Info>)
    ensures Owned(Initial<Id>(info))
  {
  }

  lemma OneMore<Id>(ps: seq<Pool<Id>>, acts: seq<Action<Id>>, k: nat)
    requires 0 < k <= |acts| < |ps|
    ensures OwnedUpTo(ps, k) <==> OwnedUpTo(ps, k - 1) && Owned(ps[k])
    ensures OwnedUpTo(ps, k - 1) ==> Owned(ps[k - 1])
    ensures Atomic(ps, acts, k) <==>
            Atomic(ps, acts, k - 1) && (acts[k - 1].Store? ==> WritesBack(ps[k - 1], acts[k - 1].t))
  {
    hide Owned, WritesBack;
  }

  lemma OwnedNext<Id>(p: Pool<Id>, a: Action<Id>, prio: Tid -> nat)
    requires Inv(p) && Owned(p) && Enabled(p, a)
    ensures Owned(Step(p, a, prio)) <==> (a.Store? ==> WritesBack(p, a.t))
  {
    StepOwned(p, a, prio);
    if a.Store? { StoreStage(p, a); }
    hide Owned, Step, Unchanged;
  }
}
