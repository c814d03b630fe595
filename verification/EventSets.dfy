/** os/compacted_event_set and os/event_allocator: logical events that share kernel events. */
module EventSets {
  import opened Lists
  import opened IpcList
  import EventSpec
  import opened PackedSpec
  import opened EventPool
  import Event

  /** One kernel event and the record of which of its bits belong to a logical event. */
  class CompactedEventSet {
    var bits: seq<bool>
    const event: Event.Event

    constructor (info: array<Info>)
      ensures bits == NoBits() && fresh(event) && event.flag == Fifo && event.info == info
      ensures event.flags == {} && event.waiters == []
    {
      bits := NoBits();
      event := new Event.Event(Fifo, info);
    }

    /** alloc: the lowest bit that is not in use; `ok` is false, for the exception, exactly when all
        bits are in use. */
    method AllocBit() returns (ok: bool, bit: nat)
      requires |bits| == N
      modifies `bits
      ensures ok == !Full(old(bits))
      ensures !ok ==> bits == old(bits)
      ensures ok ==> bit < N && bit == LowestClear(old(bits), 0) && bits == Raised(old(bits), bit)
    {
      bit := 0;
      if Full(bits) { return false, bit; }
      while bit < N && bits[bit]
        invariant bit <= N && (forall i :: 0 <= i < bit ==> bits[i]) && LowestClear(bits, 0) == LowestClear(bits, bit)
      {
        bit := bit + 1;
      }
      bits := bits[bit := true];
      ok := true;
    }

    /** set: raises the flag of one bit, which resumes at most one thread, and leaves the flags and the
        queues of the other bits, and the fields of all threads, as they are. */
    method Set(bit: nat, ghost prio: Tid -> nat) returns (resumed: seq<Tid>)
      requires bit < N && Packed(event.View())
      modifies event, event.info
      ensures Packed(event.View()) && event.View() == KernelStep(old(event.View()), SetBit(bit), prio)
      ensures event.info[..] == old(event.info[..])
      ensures Bit(event.View(), bit) == Raise(old(Bit(event.View(), bit)))
      ensures forall c: nat :: c != bit ==> Bit(event.View(), c) == old(Bit(event.View(), c))
      ensures resumed == if old(Bit(event.View(), bit).queue) == [] then [] else [old(Bit(event.View(), bit).queue)[0]]
    {
      hide Packed, Bit, EventSpec.ScanList, Raise;
      ghost var s := event.View();
      SetRefines(s, bit);
      assert EventSpec.Inv(s) by { PackedInv(s); }
      hide EventSpec.Inv;
      var r;
      r, resumed := event.SendSection({bit});
    }

    /** wait: takes the flag, or joins the queue of the bit, or times out at once; the other bits and the
        fields of other threads are not involved. */
    method Wait(t: Tid, bit: nat, timeout: int, prio: Tid -> nat) returns (r: EventSpec.Outcome)
      requires bit < N && Packed(event.View()) && event.flag == Fifo
      requires t < event.info.Length && t !in event.waiters
      modifies event, event.info
      ensures Packed(event.View()) && event.View() == KernelStep(old(event.View()), WaitBit(t, bit, timeout), prio)
      ensures forall u :: 0 <= u < event.info.Length && u != t ==> event.info[u] == old(event.info[u])
      ensures Bit(event.View(), bit) == Await(old(Bit(event.View(), bit)), t, timeout)
      ensures forall c: nat :: c != bit ==> Bit(event.View(), c) == old(Bit(event.View(), c))
      ensures r == if old(bit in event.flags) then EventSpec.Received({bit})
                   else if timeout == 0 then EventSpec.Timeout else EventSpec.Blocked
    {
      hide Packed, Bit, Await, EventSpec.Recv;
      ghost var s := event.View();
      WaitRefines(s, t, bit, timeout, prio);
      WaitFrame(s, t, bit, timeout, prio);
      assert EventSpec.Inv(s) by { PackedInv(s); }
      hide EventSpec.Inv;
      r := event.RecvSection(t, Want(bit), timeout, prio);
      assert event.info[..] == event.View().info;
    }
  }

  lemma PackedInv(s: EventSpec.State)
    requires Packed(s)
    ensures EventSpec.Inv(s)
  {
  }

  lemma WaitFrame(s: EventSpec.State, t: Tid, bit: nat, timeout: int, prio: Tid -> nat)
    requires Packed(s) && t < |s.info|
    ensures var d := EventSpec.Recv(s, t, Want(bit), timeout, Fifo, prio).0;
            |d.info| == |s.info| && forall u :: 0 <= u < |s.info| && u != t ==> d.info[u] == s.info[u]
  {
  }

  /** The list of event sets; a logical event is a set and a bit of it. */
  class EventAllocator {
    var sets: seq<CompactedEventSet>
    const info: array<Info>
    const prio: Tid -> nat
    ghost var all: set<CompactedEventSet>
    ghost var live: set<(CompactedEventSet, nat)>
    ghost var busy: map<Tid, Stage<CompactedEventSet>>

    ghost function View(): Pool<CompactedEventSet>
      reads this, all, set s | s in all :: s.event, info
    {
      Pool(sets, map s | s in all :: s.bits, map s | s in all :: Kernel(s.event.flags, s.event.waiters), info[..],
          live, busy)
    }

    /** The kernel events are those of the sets, one each, all in FIFO order and on the same threads. */
    ghost predicate Separate()
      reads this, all
    {
      && (forall s :: s in all ==> s.event.flag == Fifo && s.event.info == info)
      && (forall s, x :: s in all && x in all && s != x ==> s.event != x.event)
    }

    ghost predicate Valid()
      reads this, all, set s | s in all :: s.event, info
    {
      Separate() && Inv(View())
    }

    constructor (info: array<Info>, prio: Tid -> nat)
      ensures Valid() && View() == Initial(info[..]) && this.info == info && this.prio == prio
    {
      sets, all, live, busy := [], {}, {}, map[];
      this.info, this.prio := info, prio;
      new;
      assert View() == Initial(info[..]);
    }

    /** Nothing is changed in any set but `s`, and there only its bits. */
    lemma BitsView(p: Pool<CompactedEventSet>, s: CompactedEventSet, w: seq<bool>)
      requires p.bits.Keys == p.kernel.Keys == all && s in all && s.bits == w && info[..] == p.info
      requires forall x :: x in all ==> p.kernel[x] == Kernel(x.event.flags, x.event.waiters)
      requires forall x :: x in all && x != s ==> p.bits[x] == x.bits
      ensures View() == Pool(sets, p.bits[s := w], p.kernel, p.info, live, busy)
    {
    }

    /** A bit of a set that is not full. */
    method TakeBit(s: CompactedEventSet) returns (bit: nat)
      requires Separate() && s in all && |s.bits| == N && !Full(s.bits)
      modifies this`live, s`bits
      ensures Separate() && bit < N && bit == LowestClear(old(s.bits), 0)
      ensures var p := old(View());
              View() == p.(bits := p.bits[s := Raised(p.bits[s], bit)], live := p.live + {(s, bit)})
    {
      ghost var p := View();
      var ok;
      ok, bit := s.AllocBit();
      live := live + {(s, bit)};
      hide Raised, Full, LowestClear;
      BitsView(p, s, Raised(p.bits[s], bit));
    }

    /** A new set at the end of the list. */
    method AddSet() returns (s: CompactedEventSet)
      requires Separate() && forall x :: x in sets ==> x in all
      modifies this`sets, this`all
      ensures Separate() && fresh(s) && fresh(s.event) && s.bits == NoBits() && all == old(all) + {s}
      ensures var p := old(View());
              View() == p.(sets := p.sets + [s], bits := p.bits[s := NoBits()], kernel := p.kernel[s := Kernel({}, [])])
    {
      ghost var p := View();
      s := new CompactedEventSet(info);
      sets := sets + [s];
      all := all + {s};
      hide NoBits;
      assert View().bits == p.bits[s := NoBits()];
      assert View().kernel == p.kernel[s := Kernel({}, [])];
    }

    /** The lowest free bit of the first set that is not full. */
    method AllocFrom(s: CompactedEventSet, ghost k: nat) returns (bit: nat)
      requires Valid() && (forall x :: x in sets ==> x in all) && k < |sets| && s == sets[k]
      requires View().bits.Keys == all && k == FirstOpen(View().sets, View().bits, 0)
      requires |s.bits| == N && !Full(s.bits)
      modifies this`live, s`bits
      ensures Valid() && (View(), (s, bit)) == AllocSpec(old(View()), s) && s in all && (s, bit) in live
    {
      ghost var p := View();
      FromOpen(p, s, k);
      KeepsInv(p, s);
      hide Inv, Full, Raised, LowestClear, FirstOpen, AllocSpec, CanAlloc, Separate;
      bit := TakeBit(s);
    }

    /** The first bit of a new set. */
    method AllocNew() returns (s: CompactedEventSet, bit: nat)
      requires Valid() && (forall x :: x in sets ==> x in all)
      requires View().bits.Keys == all && |sets| == FirstOpen(View().sets, View().bits, 0)
      modifies this`live, this`sets, this`all
      ensures Valid() && (View(), (s, bit)) == AllocSpec(old(View()), s) && fresh(s) && fresh(s.event)
      ensures s in all && (s, bit) in live
    {
      ghost var p := View();
      hide Inv, Full, Raised, NoBits, LowestClear, FirstOpen, AllocSpec, CanAlloc, Separate;
      s := AddSet();
      ghost var q := View();
      NewBit();
      FromNew(p, q, s);
      KeepsInv(p, s);
      bit := TakeBit(s);
    }

    /** EventAllocator::alloc */
    method Alloc() returns (s: CompactedEventSet, bit: nat)
      requires Valid()
      modifies this, sets
      ensures Valid() && (View(), (s, bit)) == AllocSpec(old(View()), s)
      ensures s !in old(all) ==> fresh(s) && fresh(s.event)
      ensures s in all && (s, bit) in live
    {
      hide Inv, Full, FirstOpen, AllocSpec, Separate, View;
      var k := FindOpen();
      if k < |sets| {
        s := sets[k];
        bit := AllocFrom(s, k);
      } else {
        s, bit := AllocNew();
      }
    }

    /** The loop over the list. */
    method FindOpen() returns (k: nat)
      requires Valid()
      ensures forall x :: x in sets ==> x in all
      ensures View().sets == sets && View().bits.Keys == all
      ensures k <= |sets| && k == FirstOpen(View().sets, View().bits, 0)
      ensures k < |sets| ==> sets[k] in all && |sets[k].bits| == N && !Full(sets[k].bits)
    {
      ghost var p := View();
      Listing(p);
      hide Inv, Full;
      k := 0;
      while k < |sets| && Full(sets[k].bits)
        invariant k <= |sets| && FirstOpen(p.sets, p.bits, 0) == FirstOpen(p.sets, p.bits, k)
      {
        k := k + 1;
      }
    }

    lemma Listing(p: Pool<CompactedEventSet>)
      requires Inv(p)
      ensures (forall s :: s in p.sets ==> s in p.bits) && (forall s :: s in p.bits ==> |p.bits[s]| == N)
    {
    }

    /** A kernel event has made a step; `info` holds what that has left of the thread fields. */
    lemma KernelView(p: Pool<CompactedEventSet>, s: CompactedEventSet, d: EventSpec.State)
      requires p.bits.Keys == p.kernel.Keys == all && s in all && Separate()
      requires d == EventSpec.State(s.event.flags, s.event.waiters, info[..])
      requires forall x :: x in all ==> p.bits[x] == x.bits
      requires forall x :: x in all && x != s ==> p.kernel[x] == Kernel(x.event.flags, x.event.waiters)
      requires p.sets == sets && p.live == live && p.busy == busy
      ensures View() == Update(p, s, d)
    {
    }

    /** Event::set */
    method SetEvent(s: CompactedEventSet, bit: nat) returns (resumed: seq<Tid>)
      requires Valid() && (s, bit) in live && s in all
      modifies s.event, info
      ensures Valid() && View() == Step(old(View()), EventPool.SetEvent(s, bit), prio)
      ensures forall x, b: nat :: x in all ==>
                FlagOf(View(), x, b) ==
                if x == s && b == bit then Raise(old(FlagOf(View(), x, b))) else old(FlagOf(View(), x, b))
      ensures resumed == if old(FlagOf(View(), s, bit).queue) == [] then [] else [old(FlagOf(View(), s, bit).queue)[0]]
    {
      ghost var p := View();
      KernelIs(p, EventPool.SetEvent(s, bit), prio);
      assert s.event.flag == Fifo && s.event.info == info;
      hide Inv, Packed, Bit, KernelStep, Raise, Step, FlagStep, Allowed, Separate;
      resumed := s.Set(bit, prio);
      KernelView(p, s, s.event.View());
    }

    /** Event::wait, by a thread that does nothing else. */
    method WaitEvent(t: Tid, s: CompactedEventSet, bit: nat, timeout: int) returns (r: EventSpec.Outcome)
      requires Valid() && (s, bit) in live && s in all && t < info.Length && !Waiting(View(), t)
      modifies s.event, info
      ensures Valid() && View() == Step(old(View()), EventPool.WaitEvent(t, s, bit, timeout), prio)
      ensures forall x, b: nat :: x in all ==>
                FlagOf(View(), x, b) ==
                if x == s && b == bit then Await(old(FlagOf(View(), x, b)), t, timeout) else old(FlagOf(View(), x, b))
      ensures r == if old(FlagOf(View(), s, bit).isSet) then EventSpec.Received({bit})
                   else if timeout == 0 then EventSpec.Timeout else EventSpec.Blocked
    {
      ghost var p := View();
      KernelIs(p, EventPool.WaitEvent(t, s, bit, timeout), prio);
      assert FlagOf(p, s, bit).isSet == (bit in s.event.flags);
      hide Inv, Packed, Bit, KernelStep, Await, Step, FlagStep, Waiting, Separate, Allowed, FlagOf, View, Want;
      r := WaitStep(t, s, bit, timeout);
    }

    method WaitStep(t: Tid, s: CompactedEventSet, bit: nat, timeout: int) returns (r: EventSpec.Outcome)
      requires Valid() && s in all && bit < N && s in View().kernel
      requires Packed(EventPool.View(View(), s)) && t < info.Length && t !in s.event.waiters
      modifies s.event, info
      ensures Separate() && View() ==
              Update(old(View()), s, KernelStep(old(EventPool.View(View(), s)), WaitBit(t, bit, timeout), prio))
      ensures r == if old(bit in s.event.flags) then EventSpec.Received({bit})
                   else if timeout == 0 then EventSpec.Timeout else EventSpec.Blocked
    {
      ghost var p := View();
      assert s.event.flag == Fifo && s.event.info == info;
      hide Inv, Packed, Bit, KernelStep, Await, Separate, Allowed;
      r := s.Wait(t, bit, timeout, prio);
      KernelView(p, s, s.event.View());
    }

    /** Nothing is changed in any set or kernel event. */
    lemma SameView(p: Pool<CompactedEventSet>)
      requires p.bits.Keys == p.kernel.Keys == all && info[..] == p.info
      requires forall x :: x in all ==> p.kernel[x] == Kernel(x.event.flags, x.event.waiters) && p.bits[x] == x.bits
      ensures View() == Pool(sets, p.bits, p.kernel, p.info, live, busy)
    {
    }

    /** CompactedEventSet::free, the reading of the word in bits.reset(bit). */
    method LoadSection(t: Tid, s: CompactedEventSet, bit: nat) returns (word: seq<bool>)
      requires Valid() && (s, bit) in live && s in all && t !in busy
      modifies this`live, this`busy
      ensures Valid() && View() == Step(old(View()), Load(t, s, bit), prio) && word == s.bits
      ensures live == old(live) - {(s, bit)} && busy == old(busy)[t := Loaded(s, bit, word)]
    {
      ghost var p := View();
      LoadIs(p, t, s, bit, prio);
      hide Inv, Step, Separate;
      word := s.bits;
      live := live - {(s, bit)};
      busy := busy[t := Loaded(s, bit, word)];
      SameView(p);
    }

    /** The writing of the word without the bit. */
    method StoreSection(t: Tid, s: CompactedEventSet, bit: nat, word: seq<bool>)
      requires Valid() && s in all && t in busy && busy[t] == Loaded(s, bit, word)
      modifies s`bits, this`busy
      ensures Valid() && View() == Step(old(View()), Store(t), prio)
      ensures |word| == N && bit < N && s.bits == word[bit := false] && busy == old(busy)[t := Cleared(s)]
    {
      ghost var p := View();
      StoreIs(p, t, s, bit, word, prio);
      hide Inv, Step, Separate;
      s.bits := word[bit := false];
      busy := busy[t := Cleared(s)];
      BitsView(p, s, Reset(word, bit));
    }

    /** bits.none() */
    method TestSection(t: Tid, s: CompactedEventSet) returns (none: bool)
      requires Valid() && s in all && t in busy && busy[t] == Cleared(s)
      modifies this`busy
      ensures Valid() && View() == Step(old(View()), Test(t), prio)
      ensures none == None(s.bits)
      ensures busy == if none then old(busy)[t := Empty(s)] else old(busy) - {t}
    {
      ghost var p := View();
      TestIs(p, t, s, prio);
      hide Inv, Step, Separate, None;
      none := None(s.bits);
      busy := if none then busy[t := Empty(s)] else busy - {t};
      SameView(p);
    }

    /** EventAllocator::dispose */
    method DisposeSection(t: Tid, s: CompactedEventSet)
      requires Valid() && s in all && t in busy && busy[t] == Empty(s)
      modifies this`sets, this`busy
      ensures Valid() && View() == Step(old(View()), Dispose(t), prio)
      ensures sets == Without(old(sets), s) && busy == old(busy) - {t}
    {
      ghost var p := View();
      DisposeIs(p, t, s, prio);
      hide Inv, Step, Separate, Distinct, Without;
      sets := RemoveIf(sets, s);
      busy := busy - {t};
      SameView(p);
    }

    lemma ViewIs()
      ensures View().sets == sets && View().live == live && View().busy == busy && View().bits.Keys == all
      ensures forall x :: x in all ==> View().bits[x] == x.bits
    {
    }

    /** The bit is reset, and nothing comes between. */
    method ResetBit(t: Tid, s: CompactedEventSet, bit: nat)
      requires Valid() && (s, bit) in live && s in all && t !in busy && Owned(View())
      modifies this`live, this`busy, s`bits
      ensures Valid() && Owned(View()) && busy == old(busy)[t := Cleared(s)]
      ensures live == old(live) - {(s, bit)} && bit < |old(s.bits)| && s.bits == old(s.bits)[bit := false]
    {
      hide Inv, Step, Separate, Owned, Enabled, View;
      ghost var p := View();
      ViewIs();
      LoadEnabled(p, t, s, bit);
      var word := LoadSection(t, s, bit);
      ghost var p1 := View();
      ViewIs();
      StoreIs(p1, t, s, bit, word, prio);
      StoreSection(t, s, bit, word);
      FreeOwned(p, p1, View(), t, s, bit, prio);
    }

    /** The set leaves the list when it is empty, and nothing comes between. */
    method DisposeIfEmpty(t: Tid, s: CompactedEventSet)
      requires Valid() && s in all && busy == map[t := Cleared(s)] && Owned(View())
      modifies this`sets, this`busy
      ensures Valid() && Owned(View()) && busy == map[]
      ensures sets == if HasLive(live, s) then old(sets) else Without(old(sets), s)
    {
      hide Inv, Step, Separate, Owned, Enabled, View, Without, None, HasLive;
      ghost var p := View();
      ViewIs();
      TestIs(p, t, s, prio);
      EmptySet(p, s);
      var none := TestSection(t, s);
      ghost var q := View();
      ViewIs();
      TestOwned(p, q, t, s, prio);
      if none {
        DisposeIs(q, t, s, prio);
        DisposeSection(t, s);
        DisposeOwned(q, View(), t, s, prio);
      }
    }

    /** CompactedEventSet::free without interruption: the bit is free again, and the set leaves the list
        exactly with its last event. */
    method Free(t: Tid, s: CompactedEventSet, bit: nat)
      requires Valid() && (s, bit) in live && s in all && busy == map[] && Owned(View())
      modifies this`sets, this`live, this`busy, s`bits
      ensures Valid() && Owned(View()) && busy == map[]
      ensures live == old(live) - {(s, bit)} && bit < |old(s.bits)| && s.bits == old(s.bits)[bit := false]
      ensures sets == if HasLive(live, s) then old(sets) else Without(old(sets), s)
    {
      hide Inv, Separate, Owned, View, Without, HasLive;
      ResetBit(t, s, bit);
      DisposeIfEmpty(t, s);
    }
  }

  lemma LoadEnabled(p: Pool<CompactedEventSet>, t: Tid, s: CompactedEventSet, bit: nat)
    requires Inv(p) && (s, bit) in p.live && t !in p.busy
    ensures Enabled(p, Load(t, s, bit))
  {
  }

  /** remove_if on the list */
  method RemoveIf(sets: seq<CompactedEventSet>, s: CompactedEventSet) returns (kept: seq<CompactedEventSet>)
    requires Distinct(sets)
    ensures kept == Without(sets, s)
  {
    hide Without, Distinct;
    kept := [];
    assert sets[0..] == sets;
    for k := 0 to |sets|
      invariant kept + Without(sets[k..], s) == Without(sets, s)
    {
      WithoutNext(sets, s, k);
      ghost var rest := Without(sets[k + 1..], s);
      if sets[k] != s {
        assert kept + ([sets[k]] + rest) == kept + [sets[k]] + rest;
        kept := kept + [sets[k]];
      } else {
        assert kept + ([] + rest) == kept + rest;
      }
    }
    WithoutNone(sets, s);
  }

  lemma WithoutNone(sets: seq<CompactedEventSet>, s: CompactedEventSet)
    ensures Without(sets[|sets|..], s) == []
  {
  }

  lemma FreeOwned(p: Pool<CompactedEventSet>, p1: Pool<CompactedEventSet>, p2: Pool<CompactedEventSet>, t: Tid,
                  s: CompactedEventSet, bit: nat, prio: Tid -> nat)
    requires Inv(p) && Owned(p) && Enabled(p, Load(t, s, bit)) && p1 == Step(p, Load(t, s, bit), prio)
    requires Inv(p1) && Enabled(p1, Store(t)) && p2 == Step(p1, Store(t), prio)
    ensures Owned(p2)
  {
    LoadOwned(p, t, s, bit, prio);
    assert Unchanged(p1, t);
    StoreOwned(p1, t, prio);
  }

  lemma TestOwned(p: Pool<CompactedEventSet>, q: Pool<CompactedEventSet>, t: Tid, s: CompactedEventSet,
                  prio: Tid -> nat)
    requires Inv(p) && Owned(p) && Enabled(p, Test(t)) && q == Step(p, Test(t), prio)
    ensures Owned(q)
  {
    StepOwned(p, Test(t), prio);
  }

  lemma DisposeOwned(p: Pool<CompactedEventSet>, q: Pool<CompactedEventSet>, t: Tid, s: CompactedEventSet,
                     prio: Tid -> nat)
    requires Inv(p) && Owned(p) && Enabled(p, Dispose(t)) && q == Step(p, Dispose(t), prio)
    ensures Owned(q)
  {
    StepOwned(p, Dispose(t), prio);
  }

  /** While nobody is freeing an event of it, a set has no bit set exactly when no event in it lives. */
  lemma EmptySet(p: Pool<CompactedEventSet>, s: CompactedEventSet)
    requires Inv(p) && Owned(p) && s in p.bits && forall t :: t in p.busy ==> !p.busy[t].Loaded?
    ensures None(p.bits[s]) <==> !HasLive(p.live, s)
  {
    assert forall b: nat :: !Pending(p, s, b);
    if HasLive(p.live, s) {
      var e :| e in p.live && e.0 == s;
      assert p.bits[s][e.1];
    }
  }

  lemma KernelIs(p: Pool<CompactedEventSet>, a: EventPool.Action<CompactedEventSet>, prio: Tid -> nat)
    requires Inv(p) && Enabled(p, a) && (a.SetEvent? || a.WaitEvent?)
    ensures p.bits.Keys == p.kernel.Keys && a.bit < N && a.home in p.kernel && Packed(View(p, a.home))
            && Allowed(View(p, a.home), OnBit(a))
    ensures Inv(Step(p, a, prio))
    ensures Step(p, a, prio) == Update(p, a.home, KernelStep(View(p, a.home), OnBit(a), prio))
    ensures a.WaitEvent? ==> a.t !in p.kernel[a.home].waiters
    ensures forall s, b: nat :: s in p.kernel ==>
              FlagOf(Step(p, a, prio), s, b) ==
              if s == a.home && b == a.bit then
                (if a.SetEvent? then Raise(FlagOf(p, s, b)) else Await(FlagOf(p, s, b), a.t, a.timeout))
              else FlagOf(p, s, b)
  {
    StepInv(p, a, prio);
    StepFlags(p, a, prio);
    KernelAllowed(p, a);
    NewSets(p, a, prio);
    if a.WaitEvent? { WaitingHere(p, a.home, a.t); }
    hide Packed, Bit, KernelStep, Raise, Await;
  }

  lemma LoadIs(p: Pool<CompactedEventSet>, t: Tid, s: CompactedEventSet, bit: nat, prio: Tid -> nat)
    requires Inv(p) && Enabled(p, Load(t, s, bit))
    ensures Inv(Step(p, Load(t, s, bit), prio)) && p.bits.Keys == p.kernel.Keys
    ensures Step(p, Load(t, s, bit), prio) ==
            Pool(p.sets, p.bits, p.kernel, p.info, p.live - {(s, bit)}, p.busy[t := Loaded(s, bit, p.bits[s])])
  {
    StepInv(p, Load(t, s, bit), prio);
  }

  lemma StoreIs(p: Pool<CompactedEventSet>, t: Tid, s: CompactedEventSet, bit: nat, word: seq<bool>, prio: Tid -> nat)
    requires Inv(p) && t in p.busy && p.busy[t] == Loaded(s, bit, word)
    ensures |word| == N && bit < N && s in p.bits && p.bits.Keys == p.kernel.Keys && Enabled(p, Store(t))
    ensures Inv(Step(p, Store(t), prio))
    ensures Step(p, Store(t), prio) ==
            Pool(p.sets, p.bits[s := Reset(word, bit)], p.kernel, p.info, p.live, p.busy[t := Cleared(s)])
  {
    assert StageOk(p.bits, p.busy[t]);
    StepInv(p, Store(t), prio);
  }

  lemma TestIs(p: Pool<CompactedEventSet>, t: Tid, s: CompactedEventSet, prio: Tid -> nat)
    requires Inv(p) && t in p.busy && p.busy[t] == Cleared(s)
    ensures s in p.bits && p.bits.Keys == p.kernel.Keys && Enabled(p, Test(t)) && Inv(Step(p, Test(t), prio))
    ensures Step(p, Test(t), prio) ==
            Pool(p.sets, p.bits, p.kernel, p.info, p.live, if None(p.bits[s]) then p.busy[t := Empty(s)]
                else p.busy - {t})
  {
    assert StageOk(p.bits, p.busy[t]);
    StepInv(p, Test(t), prio);
  }

  lemma DisposeIs(p: Pool<CompactedEventSet>, t: Tid, s: CompactedEventSet, prio: Tid -> nat)
    requires Inv(p) && t in p.busy && p.busy[t] == Empty(s)
    ensures Distinct(p.sets) && p.bits.Keys == p.kernel.Keys && Enabled(p, Dispose(t)) && Inv(Step(p, Dispose(t), prio))
    ensures Step(p, Dispose(t), prio) == Pool(Without(p.sets, s), p.bits, p.kernel, p.info, p.live, p.busy - {t})
  {
    StepInv(p, Dispose(t), prio);
  }

  lemma FromOpen(p: Pool<CompactedEventSet>, s: CompactedEventSet, k: nat)
    requires (forall x :: x in p.sets ==> x in p.bits) && k == FirstOpen(p.sets, p.bits, 0) < |p.sets| && s == p.sets[k]
    ensures CanAlloc(p, s)
    ensures var b := LowestClear(p.bits[s], 0);
            AllocSpec(p, s) == (p.(bits := p.bits[s := Raised(p.bits[s], b)], live := p.live + {(s, b)}), (s, b))
  {
  }

  lemma FromNew(p: Pool<CompactedEventSet>, q: Pool<CompactedEventSet>, s: CompactedEventSet)
    requires (forall x :: x in p.sets ==> x in p.bits) && FirstOpen(p.sets, p.bits, 0) == |p.sets| && s !in p.bits
    requires q == p.(sets := p.sets + [s], bits := p.bits[s := NoBits()], kernel := p.kernel[s := Kernel({}, [])])
    ensures CanAlloc(p, s)
    ensures AllocSpec(p, s) == (q.(bits := q.bits[s := Raised(NoBits(), 0)], live := p.live + {(s, 0)}), (s, 0))
  {
    assert p.bits[s := NoBits()][s := Raised(NoBits(), 0)] == p.bits[s := Raised(NoBits(), 0)];
  }

  lemma NewBit()
    ensures |NoBits()| == N && !Full(NoBits()) && LowestClear(NoBits(), 0) == 0
  {
    assert !NoBits()[0];
  }

  lemma KeepsInv(p: Pool<CompactedEventSet>, s: CompactedEventSet)
    requires Inv(p) && CanAlloc(p, s)
    ensures Inv(AllocSpec(p, s).0)
  {
    AllocShape(p, s);
    AllocFlags(p, s);
  }
}
