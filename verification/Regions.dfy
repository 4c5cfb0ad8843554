/** The address space that `vmm_alloc_region` hands out over a run. */
module Regions {
  import opened Vmm
  import opened PageTables
  import opened VmmRuns

  /** A region that was handed out: its first address and its bytes. */
  datatype Span = Span(start: nat, size: nat)

  /** The regions handed out in a run, in order. */
  function Handed(m: Machine, root: Top, es: seq<Event>): seq<Span>
    decreases |es|
  {
    if m.Halted? || es == [] then []
    else
      (match es[0]
       case Region(n) => [Span(AllocRegion(m.k, n).1, n * 4096)]
       case _ => [])
      + Handed(Step(m.k, root, es[0]), root, es[1..])
  }

  /** The bytes that a run asks for. */
  function Asked(es: seq<Event>): nat {
    if es == [] then 0 else (match es[0] case Region(n) => n * 4096 case _ => 0) + Asked(es[1..])
  }

  /** The regions lie behind each other, from `lo` to `hi`. */
  predicate Stacked(rs: seq<Span>, lo: nat, hi: nat) {
    if rs == [] then lo == hi else rs[0].start == lo && Stacked(rs[1..], lo + rs[0].size, hi)
  }

  /** Stacked regions are disjoint, and below the upper end. */
  lemma {:induction false} StackedApart(rs: seq<Span>, lo: nat, hi: nat)
    requires Stacked(rs, lo, hi)
    ensures lo <= hi && forall i | 0 <= i < |rs| :: lo <= rs[i].start && rs[i].start + rs[i].size <= hi
    ensures forall i, j | 0 <= i < j < |rs| :: rs[i].start + rs[i].size <= rs[j].start
  {
    if rs != [] {
      var rest := rs[1..];
      StackedApart(rest, lo + rs[0].size, hi);
      assert forall i | 0 < i < |rs| :: rs[i] == rest[i - 1];
    }
  }

  lemma StepBreak(k: Kernel, root: Top, o: Owners, total: Word, e: Event)
    requires Inv(k, root, o, total) && Possible(k, root, o, e) && Step(k, root, e).Running?
    ensures Step(k, root, e).k.brk == match e case Region(n) => (k.brk + n * 4096) % WORDS case _ => k.brk
  {
    hide Inv, Possible, Track, View, HandleFault, Walk, PageOf;
    StepRefines(k, root, o, total, e);
    ViewBreak(Step(k, root, e).k, Track(k, o, e));
    ViewBreak(k, o);
  }

  lemma ViewBreak(k: Kernel, o: Owners)
    ensures View(k, o).Abstract? && View(k, o).brk == k.brk
  {
  }

  lemma HandedFirst(k: Kernel, root: Top, es: seq<Event>)
    requires es != []
    ensures var rest := Handed(Step(k, root, es[0]), root, es[1..]);
            Handed(Running(k), root, es) == if es[0].Region? then [Span(k.brk, es[0].pages * 4096)] + rest else rest
  {
    hide Step;
  }

  lemma AskedFirst(es: seq<Event>)
    requires es != []
    ensures Asked(es) == (if es[0].Region? then es[0].pages * 4096 else 0) + Asked(es[1..])
  {
  }

  /** A first region, which ends at a break that may have been reduced. */
  lemma StackFirst(r: Span, rest: seq<Span>, asked: nat, hi: Word)
    requires r.start < WORDS
    requires Stacked(rest, (r.start + r.size) % WORDS, hi) <==> (r.start + r.size) % WORDS + asked < WORDS
    ensures Stacked([r] + rest, r.start, hi) <==> r.start + r.size + asked < WORDS
  {
    assert ([r] + rest)[1..] == rest;
    if r.start + r.size >= WORDS && Stacked(rest, r.start + r.size, hi) {
      StackedApart(rest, r.start + r.size, hi);
    }
  }

  /** Over every possible run, the regions handed out are stacked from the first break to the last
      exactly when the break does not leave the address space. */
  lemma {:induction false} RegionsStackExactly(k: Kernel, root: Top, o: Owners, total: Word, es: seq<Event>)
    requires Inv(k, root, o, total) && PossibleRun(Running(k), root, o, es) && Run(Running(k), root, es).Running?
    ensures Stacked(Handed(Running(k), root, es), k.brk, Run(Running(k), root, es).k.brk) <==> k.brk + Asked(es) < WORDS
    decreases |es|
  {
    hide Inv, Possible, Step, Track, Asked, Handed, Run, PossibleRun, Stacked;
    if es != [] {
      var e := es[0];
      var next := Step(k, root, e);
      RunFirst(k, root, o, es);
      StepBreak(k, root, o, total, e);
      StepKeepsInv(k, root, o, total, e);
      HandedFirst(k, root, es);
      AskedFirst(es);
      RegionsStackExactly(next.k, root, Track(k, o, e), total, es[1..]);
      if e.Region? {
        StackFirst(Span(k.brk, e.pages * 4096), Handed(next, root, es[1..]), Asked(es[1..]), Run(next, root, es[1..]).k.brk);
      }
    } else {
      RunNothing(k, root);
    }
  }

  lemma RunFirst(k: Kernel, root: Top, o: Owners, es: seq<Event>)
    requires es != [] && PossibleRun(Running(k), root, o, es) && Run(Running(k), root, es).Running?
    ensures var next := Step(k, root, es[0]);
            && next.Running? && Possible(k, root, o, es[0]) && PossibleRun(next, root, Track(k, o, es[0]), es[1..])
            && Run(Running(k), root, es) == Run(next, root, es[1..])
  {
    hide Step, Possible, Track;
  }

  lemma RunNothing(k: Kernel, root: Top)
    ensures Run(Running(k), root, []) == Running(k) && Handed(Running(k), root, []) == [] && Asked([]) == 0
    ensures Stacked([], k.brk, k.brk)
  {
  }

  /** Regions of a run whose break stays in the address space: they are disjoint and below the break,
      and a page fault at any of their addresses, except a null pointer, is repaired. */
  lemma RegionsUsable(k: Kernel, root: Top, o: Owners, total: Word, es: seq<Event>, i: nat, j: nat, va: Word, code: Word)
    requires Inv(k, root, o, total) && PossibleRun(Running(k), root, o, es) && Run(Running(k), root, es).Running?
    requires k.brk + Asked(es) < WORDS
    ensures var rs, k' := Handed(Running(k), root, es), Run(Running(k), root, es).k;
            && (i < j < |rs| ==> rs[i].start + rs[i].size <= rs[j].start)
            && (i < |rs| ==> k.brk <= rs[i].start && rs[i].start + rs[i].size <= k'.brk)
            && (i < |rs| && rs[i].start <= va < rs[i].start + rs[i].size && va != 0 && code % 2 == 0
                ==> Step(k', root, Fault(va, code)).Running?)
  {
    hide Inv, PossibleRun, Asked, HandleFault, Handed, Run, Stacked;
    RegionsStackExactly(k, root, o, total, es);
    StackedApart(Handed(Running(k), root, es), k.brk, Run(Running(k), root, es).k.brk);
  }
}
