/**
 * The fragment table of src/ip_frag.c as a map from datagram keys to cells, and
 * what holds of every run of fragments over it.
 */
module FragSpec {
  import opened Wrappers
  import opened MapFacts

  const IPF_TIMEOUT := 60
  const PRUNE_INTERVAL := 7200
  const EMER_PRUNE_INTERVAL := 60
  const PRUNE_OFFSET := 1800

  const U16 := 0x1_0000
  const U32 := 0x1_0000_0000

  /** The first bytes of the transport header. */
  type Header = seq<nat>

  /** Addresses are word sequences, so one key covers IPv4 and IPv6 (which has no protocol field). */
  datatype FragKey = FragKey(id: nat, proto: nat, src: seq<nat>, dst: seq<nat>)

  /** One fragment: its offset within the datagram, its length, and its leading bytes. */
  datatype Fragment = Fragment(offset: nat, len: nat, hdr: Header) {
    predicate First() { offset == 0 }
  }

  datatype Cell = Cell(gotFirst: bool, a: nat, pa: nat, hdr: Header, deadline: nat)

  const ZeroCell := Cell(false, 0, 0, [0, 0, 0, 0, 0, 0, 0, 0], 0)

  /** What the caller sees: the verdict, the header it is left with, and the sums handed to a first fragment. */
  datatype Outcome = Outcome(found: bool, hdr: Header, sums: Option<(nat, nat)>)

  /** A fragment that meets the live cell of its datagram. */
  function Meet(c: Cell, f: Fragment, sampled: bool): (Cell, Outcome) {
    if c.gotFirst then (c, Outcome(true, c.hdr, None))
    else if f.First() then
      (c.(gotFirst := true, hdr := f.hdr, a := 0, pa := 0), Outcome(true, f.hdr, Some((c.a, c.pa))))
    else if sampled then (c, Outcome(false, f.hdr, None))
    else (c.(pa := (c.pa + 1) % U16, a := (c.a + f.len) % U16), Outcome(false, f.hdr, None))
  }

  lemma MeetDeadline(c: Cell, f: Fragment, sampled: bool)
    ensures Meet(c, f, sampled).0.deadline == c.deadline
  {
  }

  /** A fragment that takes over cell `c`; only the fields the source writes change. */
  function Take(c: Cell, f: Fragment, now: nat, sampled: bool): Cell {
    var d := c.(deadline := (now + IPF_TIMEOUT) % U32);
    if f.First() then d.(gotFirst := true, hdr := f.hdr)
    else if sampled then d
    else d.(pa := (c.pa + 1) % U16, a := f.len % U16)
  }

  /** Until the 32-bit clock is about to wrap, a deadline is a full timeout away. */
  lemma TakeDeadline(c: Cell, f: Fragment, now: nat, sampled: bool)
    requires now < U32
    ensures Take(c, f, now, sampled).deadline == now + IPF_TIMEOUT <==> now + IPF_TIMEOUT < U32
  {
  }

  function TakeOutcome(f: Fragment): Outcome { Outcome(f.First(), f.hdr, None) }

  /** The prune limit, in 32-bit arithmetic. */
  function Cutoff(now: nat, off: nat): nat { (now - off) % U32 }

  lemma CutoffAt(now: nat, off: nat)
    requires off <= now < U32
    ensures Cutoff(now, off) == now - off
  {
  }

  function Pruned(m: map<FragKey, Cell>, cutoff: nat): map<FragKey, Cell> {
    map k | k in m && m[k].deadline >= cutoff :: m[k]
  }

  function IfDue(due: bool, m: map<FragKey, Cell>, cutoff: nat): map<FragKey, Cell> {
    if due then Pruned(m, cutoff) else m
  }

  /** A cell that another datagram of the same bucket may take over. */
  ghost predicate Evictable(m: map<FragKey, Cell>, e: FragKey, k: FragKey, hash: FragKey -> nat, now: nat) {
    e in m && hash(e) == hash(k) && m[e].deadline < now
  }

  datatype Env = Env(capacity: nat, hash: FragKey -> nat, sampled: bool)

  /**
   * What one fragment does to the table: `m` before, `m'` after.  `memory` says whether an allocation
   * would succeed, `due` whether an emergency prune would run.
   */
  ghost predicate FragStep(m: map<FragKey, Cell>, m': map<FragKey, Cell>, out: Outcome,
                           k: FragKey, f: Fragment, now: nat, env: Env, memory: bool, due: bool) {
    if k in m && m[k].deadline > now then
      m' == m[k := Meet(m[k], f, env.sampled).0] && out == Meet(m[k], f, env.sampled).1
    else if |m| < env.capacity && k in m then
      m' == m[k := Take(m[k], f, now, env.sampled)] && out == TakeOutcome(f)
    else if |m| < env.capacity && exists e :: Evictable(m, e, k, env.hash, now) then
      out == TakeOutcome(f)
      && exists e :: Evictable(m, e, k, env.hash, now) && m' == (m - {e})[k := Take(m[e], f, now, env.sampled)]
    else if |m| < env.capacity && memory then
      m' == m[k := Take(ZeroCell, f, now, env.sampled)] && out == TakeOutcome(f)
    else
      m' == IfDue(due, m, Cutoff(now, 0)) && out == Outcome(false, f.hdr, None)
  }

  /** Neither a live cell of its own, nor one to take over, nor a new one. */
  ghost predicate Refuses(m: map<FragKey, Cell>, k: FragKey, now: nat, env: Env, memory: bool) {
    && !(k in m && m[k].deadline > now)
    && (|m| >= env.capacity || (k !in m && !memory && forall e :: !Evictable(m, e, k, env.hash, now)))
  }

  lemma RefusedStep(m: map<FragKey, Cell>, k: FragKey, f: Fragment, now: nat, env: Env, memory: bool, due: bool)
    requires k in m ==> m[k].deadline <= now
    requires |m| >= env.capacity || (!memory && k !in m && forall e :: !Evictable(m, e, k, env.hash, now))
    ensures FragStep(m, IfDue(due, m, Cutoff(now, 0)), Outcome(false, f.hdr, None), k, f, now, env, memory, due)
    ensures Refuses(m, k, now, env, memory)
  {
  }

  lemma FreshStep(m: map<FragKey, Cell>, k: FragKey, f: Fragment, now: nat, env: Env, due: bool)
    requires |m| < env.capacity && k !in m && forall e :: !Evictable(m, e, k, env.hash, now)
    ensures FragStep(m, m[k := Take(ZeroCell, f, now, env.sampled)], TakeOutcome(f), k, f, now, env, true, due)
    ensures !Refuses(m, k, now, env, true)
  {
  }

  lemma RecycleStep(m: map<FragKey, Cell>, e: FragKey, k: FragKey, f: Fragment, now: nat, env: Env, memory: bool, due: bool)
    requires |m| < env.capacity && e in m && env.hash(e) == env.hash(k)
    requires if e == k then m[k].deadline <= now else k !in m && m[e].deadline < now
    ensures FragStep(m, (m - {e})[k := Take(m[e], f, now, env.sampled)], TakeOutcome(f), k, f, now, env, memory, due)
    ensures !Refuses(m, k, now, env, memory)
  {
    if e == k {
      assert (m - {k})[k := Take(m[k], f, now, env.sampled)] == m[k := Take(m[k], f, now, env.sampled)];
    } else {
      assert Evictable(m, e, k, env.hash, now);
    }
  }

  /**
   * A datagram without a live cell gets one exactly if the table is not full and there is its own old cell, another one
   * of its bucket past its deadline, or memory.
   */
  lemma AdmittedExactly(m: map<FragKey, Cell>, m': map<FragKey, Cell>, out: Outcome,
                        k: FragKey, f: Fragment, now: nat, env: Env, memory: bool, due: bool)
    requires FragStep(m, m', out, k, f, now, env, memory, due) && now + 60 < 0x1_0000_0000
    requires k in m ==> m[k].deadline <= now
    ensures var room := |m| < env.capacity && (k in m || memory || exists e :: e in m && env.hash(e) == env.hash(k) && m[e].deadline < now);
      if room then k in m' && m'[k].deadline == now + 60 && (out.found <==> f.First())
      else !out.found && forall j :: j in m' <==> j in m && !(due && m[j].deadline < now)
    ensures out.hdr == f.hdr && out.sums == None
  {
    assert forall e :: Evictable(m, e, k, env.hash, now) <==> e in m && env.hash(e) == env.hash(k) && m[e].deadline < now;
  }

  /** What cell `c` is after a datagram has taken it over with fragment `f`; its mark and its counts are not reset. */
  predicate TakenOver(c: Cell, c': Cell, f: Fragment, now: nat, sampled: bool) {
    && c'.deadline == now + 60
    && (c'.gotFirst <==> c.gotFirst || f.First())
    && c'.hdr == (if f.First() then f.hdr else c.hdr)
    && c'.pa == (if f.First() || sampled then c.pa else (c.pa + 1) % 65536)
    && c'.a == if f.First() || sampled then c.a else f.len % 65536
  }

  lemma TakeIs(c: Cell, f: Fragment, now: nat, sampled: bool)
    requires now + 60 < 0x1_0000_0000
    ensures TakenOver(c, Take(c, f, now, sampled), f, now, sampled)
  {
  }

  /** Nothing else changes. */
  predicate OthersSame(m: map<FragKey, Cell>, m': map<FragKey, Cell>, k: FragKey) {
    forall j :: j in m' && j != k ==> j in m && m'[j] == m[j]
  }

  /** A datagram takes its own old cell again. */
  lemma TakesOwn(m: map<FragKey, Cell>, m': map<FragKey, Cell>, out: Outcome,
                 k: FragKey, f: Fragment, now: nat, env: Env, memory: bool, due: bool)
    requires FragStep(m, m', out, k, f, now, env, memory, due) && now + 60 < 0x1_0000_0000
    requires k in m && m[k].deadline <= now && |m| < env.capacity
    ensures m'.Keys == m.Keys && TakenOver(m[k], m'[k], f, now, env.sampled) && OthersSame(m, m', k)
  {
    TakeIs(m[k], f, now, env.sampled);
    hide Take, TakenOver, Meet, IfDue;
  }

  /** Without one it takes another one of its bucket that is past its deadline, whose datagram goes. */
  lemma TakesOther(m: map<FragKey, Cell>, m': map<FragKey, Cell>, out: Outcome,
                   k: FragKey, f: Fragment, now: nat, env: Env, memory: bool, due: bool) returns (e: FragKey)
    requires FragStep(m, m', out, k, f, now, env, memory, due) && now + 60 < 0x1_0000_0000
    requires k !in m && |m| < env.capacity && exists j :: Evictable(m, j, k, env.hash, now)
    ensures e in m && env.hash(e) == env.hash(k) && m[e].deadline < now
    ensures m'.Keys == m.Keys - {e} + {k} && TakenOver(m[e], m'[k], f, now, env.sampled) && OthersSame(m, m', k)
  {
    hide Take, TakenOver, Meet, IfDue;
    e :| Evictable(m, e, k, env.hash, now) && m' == (m - {e})[k := Take(m[e], f, now, env.sampled)];
    TakeIs(m[e], f, now, env.sampled);
  }

  /** And without that a blank one, if there is memory. */
  lemma TakesBlank(m: map<FragKey, Cell>, m': map<FragKey, Cell>, out: Outcome,
                   k: FragKey, f: Fragment, now: nat, env: Env, due: bool)
    requires FragStep(m, m', out, k, f, now, env, true, due) && now + 60 < 0x1_0000_0000
    requires k !in m && |m| < env.capacity && forall j :: !Evictable(m, j, k, env.hash, now)
    ensures m'.Keys == m.Keys + {k} && OthersSame(m, m', k)
    ensures TakenOver(Cell(false, 0, 0, [0, 0, 0, 0, 0, 0, 0, 0], 0), m'[k], f, now, env.sampled)
  {
    TakeIs(ZeroCell, f, now, env.sampled);
    hide Take, TakenOver, Meet, IfDue;
  }

  /** A fragment of a live cell changes nothing but its own accumulators and first-fragment mark. */
  lemma MetExactly(m: map<FragKey, Cell>, m': map<FragKey, Cell>, out: Outcome,
                   k: FragKey, f: Fragment, now: nat, env: Env, memory: bool, due: bool)
    requires FragStep(m, m', out, k, f, now, env, memory, due) && k in m && m[k].deadline > now
    ensures m'.Keys == m.Keys && (forall j :: j in m && j != k ==> m'[j] == m[j]) && m'[k].deadline == m[k].deadline
    ensures out.found <==> m[k].gotFirst || f.First()
    ensures m'[k].gotFirst <==> out.found
  {
  }

  /** The periodic prune keeps exactly the cells with a deadline not more than half an hour ago. */
  lemma PeriodicExactly(m: map<FragKey, Cell>, now: nat)
    requires 1800 <= now < 0x1_0000_0000
    ensures forall j :: j in Pruned(m, Cutoff(now, PRUNE_OFFSET)) <==> j in m && m[j].deadline + 1800 >= now
  {
    CutoffAt(now, PRUNE_OFFSET);
  }

  /** A cell that is live stays in the table, unchanged unless the fragment is its own. */
  lemma LiveCellsSurvive(m: map<FragKey, Cell>, m': map<FragKey, Cell>, out: Outcome, other: FragKey,
                         k: FragKey, f: Fragment, now: nat, env: Env, memory: bool, due: bool)
    requires FragStep(m, m', out, k, f, now, env, memory, due) && now < U32
    requires other in m && m[other].deadline > now && other != k
    ensures other in m' && m'[other] == m[other]
  {
    hide Meet, Take;
  }

  /** The table never holds more datagrams than its capacity, and a fragment adds at most one. */
  lemma StepKeepsBound(m: map<FragKey, Cell>, m': map<FragKey, Cell>, out: Outcome,
                       k: FragKey, f: Fragment, now: nat, env: Env, memory: bool, due: bool)
    requires FragStep(m, m', out, k, f, now, env, memory, due) && |m| <= env.capacity
    ensures |m'| <= env.capacity && |m'| <= |m| + 1
  {
    hide Meet, Take, Cutoff;
    if k in m && m[k].deadline > now {
      PutSize(m, k, m'[k]);
    } else if |m| < env.capacity && k in m {
      PutSize(m, k, m'[k]);
    } else if |m| < env.capacity && exists e :: Evictable(m, e, k, env.hash, now) {
      var e :| Evictable(m, e, k, env.hash, now) && m' == (m - {e})[k := Take(m[e], f, now, env.sampled)];
      SwapSize(m, e, k, m'[k]);
    } else if |m| < env.capacity && memory {
      PutSize(m, k, m'[k]);
    } else {
      SubSize(m', m);
    }
  }

  lemma LiveCellMeets(m: map<FragKey, Cell>, m': map<FragKey, Cell>, out: Outcome,
                      k: FragKey, f: Fragment, now: nat, env: Env, memory: bool, due: bool)
    requires FragStep(m, m', out, k, f, now, env, memory, due)
    requires k in m && m[k].deadline > now
    ensures k in m' && (m'[k], out) == Meet(m[k], f, env.sampled)
  {
  }

  /** The periodic prune keeps every live cell. */
  lemma SurvivesPrune(m: map<FragKey, Cell>, k: FragKey, now: nat, prune: bool)
    requires k in m && m[k].deadline > now && (prune ==> PRUNE_OFFSET <= now < U32)
    ensures var m' := IfDue(prune, m, Cutoff(now, PRUNE_OFFSET)); k in m' && m'[k] == m[k]
  {
  }

  // ----- the life of one datagram

  function Sum(fs: seq<Fragment>): nat {
    if fs == [] then 0 else Sum(fs[..|fs| - 1]) + fs[|fs| - 1].len
  }

  /** How many fragments come before the first one; all of them if it is missing. */
  function Lead(fs: seq<Fragment>): (n: nat)
    ensures n <= |fs|
    ensures forall i :: 0 <= i < n ==> !fs[i].First()
    ensures n < |fs| ==> fs[n].First()
  {
    if fs == [] || fs[0].First() then 0 else 1 + Lead(fs[1..])
  }

  /** The cell of a datagram whose node was freshly allocated for `fs[0]` and then met by the rest. */
  function Replay(fs: seq<Fragment>, now: nat, sampled: bool): Cell
    requires fs != []
  {
    if |fs| == 1 then Take(ZeroCell, fs[0], now, sampled)
    else Meet(Replay(fs[..|fs| - 1], now, sampled), fs[|fs| - 1], sampled).0
  }

  /** The promise of the handler for the last of `fs`, all of one datagram; with external sampling nothing is counted. */
  function Promise(fs: seq<Fragment>, sampled: bool): Outcome
    requires fs != []
  {
    var k, last := Lead(fs), |fs| - 1;
    if k > last then Outcome(false, fs[last].hdr, None)
    else if k < last then Outcome(true, fs[k].hdr, None)
    else if k == 0 then Outcome(true, fs[k].hdr, None)
    else Outcome(true, fs[k].hdr, Some(if sampled then (0, 0) else (Sum(fs[..k]) % U16, k % U16)))
  }

  lemma {:induction false} LeadOfPrefix(fs: seq<Fragment>)
    requires fs != []
    ensures var ps := fs[..|fs| - 1];
      Lead(fs) == if Lead(ps) < |ps| then Lead(ps) else if fs[|fs| - 1].First() then |ps| else |fs|
  {
    if !fs[0].First() && |fs| > 1 {
      LeadOfPrefix(fs[1..]);
      assert fs[1..][..|fs| - 2] == fs[..|fs| - 1][1..];
    }
  }

  lemma WrapAdd(a: nat, b: nat)
    ensures (a % U16 + b) % U16 == (a + b) % U16
  {
    assert a + b == a % U16 + b + U16 * (a / U16);
  }

  /** The accumulators count the fragments before the first; once it is there they are zero and its header is kept. */
  lemma {:induction false} ReplayState(fs: seq<Fragment>, now: nat, sampled: bool)
    requires fs != []
    ensures var c, k := Replay(fs, now, sampled), Lead(fs);
      && c.deadline == (now + IPF_TIMEOUT) % U32
      && (k == |fs| ==> !c.gotFirst && (c.a, c.pa) == if sampled then (0, 0) else (Sum(fs) % U16, |fs| % U16))
      && (k < |fs| ==> c.gotFirst && c.a == 0 && c.pa == 0 && c.hdr == fs[k].hdr)
  {
    LeadOfPrefix(fs);
    if |fs| == 1 {
      assert Sum(fs) == Sum([]) + fs[0].len;
    } else {
      var ps, f := fs[..|fs| - 1], fs[|fs| - 1];
      ReplayState(ps, now, sampled);
      WrapAdd(Sum(ps), f.len);
      WrapAdd(|ps|, 1);
    }
  }

  lemma PromiseOfOne(f: Fragment, sampled: bool)
    ensures Promise([f], sampled) == TakeOutcome(f)
  {
    assert Lead([f]) == if f.First() then 0 else 1 + Lead([]);
  }

  /** Every later fragment of a freshly allocated datagram gets what the handler promises. */
  lemma MeetKeepsPromise(fs: seq<Fragment>, f: Fragment, now: nat, sampled: bool)
    requires fs != []
    ensures Meet(Replay(fs, now, sampled), f, sampled) == (Replay(fs + [f], now, sampled), Promise(fs + [f], sampled))
  {
    ReplayState(fs, now, sampled);
    LeadOfPrefix(fs + [f]);
    assert (fs + [f])[..|fs|] == fs;
    if Lead(fs) == |fs| {
      assert (fs + [f])[..Lead(fs)] == fs;
    }
  }

  // ----- runs

  datatype Arrival = Arrival(key: FragKey, frag: Fragment, now: nat, out: Outcome, memory: bool, due: bool, prune: bool)

  /** The entry point: the periodic prune if it is time for it, then the fragment. */
  ghost predicate HandlerStep(m: map<FragKey, Cell>, m': map<FragKey, Cell>, x: Arrival, env: Env) {
    && (x.prune ==> x.now > PRUNE_INTERVAL)
    && FragStep(IfDue(x.prune, m, Cutoff(x.now, PRUNE_OFFSET)), m', x.out, x.key, x.frag, x.now, env, x.memory, x.due)
  }

  ghost predicate Run(ms: seq<map<FragKey, Cell>>, xs: seq<Arrival>, env: Env) {
    |ms| == |xs| + 1 && forall i :: 0 <= i < |xs| ==> HandlerStep(ms[i], ms[i + 1], xs[i], env)
  }

  /** The fragments of one datagram, in order of arrival. */
  function Mine(xs: seq<Arrival>, k: FragKey): seq<Fragment> {
    if xs == [] then []
    else
      var x := xs[|xs| - 1];
      Mine(xs[..|xs| - 1], k) + if x.key == k then [x.frag] else []
  }

  /** A run that begins with datagram `k` getting a blank cell, all within that cell's lifetime. */
  ghost predicate Lifetime(ms: seq<map<FragKey, Cell>>, xs: seq<Arrival>, k: FragKey, env: Env) {
    && Run(ms, xs, env) && xs != []
    && xs[0].key == k && k in ms[1] && ms[1][k] == Take(ZeroCell, xs[0].frag, xs[0].now, env.sampled)
    && xs[0].out == TakeOutcome(xs[0].frag)
    && xs[0].now + IPF_TIMEOUT < U32
    && forall i :: 0 <= i < |xs| ==> xs[i].now < xs[0].now + IPF_TIMEOUT
  }

  /**
   * Reassembly keeps its promise: whatever other datagrams, prunes and allocation failures come in
   * between, the cell of a freshly allocated datagram stays, and each of its fragments gets the outcome
   * that depends only on the datagram's own fragments so far.
   */
  lemma {:induction false} DatagramRun(ms: seq<map<FragKey, Cell>>, xs: seq<Arrival>, k: FragKey, env: Env)
    requires Lifetime(ms, xs, k, env)
    ensures var n, fs := |xs|, Mine(xs, k);
      && fs != [] && k in ms[n] && ms[n][k] == Replay(fs, xs[0].now, env.sampled)
      && (xs[n - 1].key == k ==> xs[n - 1].out == Promise(fs, env.sampled))
    decreases |xs|
  {
    hide Meet, Take, FragStep, Promise;
    var n := |xs|;
    var ys, x := xs[..n - 1], xs[n - 1];
    if n == 1 {
      assert Mine(xs, k) == Mine([], k) + [x.frag] == [x.frag];
      PromiseOfOne(x.frag, env.sampled);
    } else {
      assert HandlerStep(ms[n - 1], ms[n], x, env);
      DatagramRun(ms[..n], ys, k, env);
      var fs := Mine(ys, k);
      ReplayState(fs, xs[0].now, env.sampled);
      var m := IfDue(x.prune, ms[n - 1], Cutoff(x.now, PRUNE_OFFSET));
      SurvivesPrune(ms[n - 1], k, x.now, x.prune);
      if x.key == k {
        LiveCellMeets(m, ms[n], x.out, k, x.frag, x.now, env, x.memory, x.due);
        MeetKeepsPromise(fs, x.frag, xs[0].now, env.sampled);
        assert Mine(xs, k) == fs + [x.frag];
      } else {
        LiveCellsSurvive(m, ms[n], x.out, k, x.key, x.frag, x.now, env, x.memory, x.due);
        assert Mine(xs, k) == fs;
      }
    }
  }

  // ----- what the entry point decides, and when it reads freed memory

  /** The table with what steers its prunes: `stale` says that the sentinel still points at a freed node. */
  datatype State = State(m: map<FragKey, Cell>, stale: bool, pruneDeadline: nat, emergency: nat)

  /** A fragment as it comes in, and whether malloc() would then succeed. */
  datatype Input = Input(key: FragKey, frag: Fragment, now: nat, memory: bool)

  predicate PrunesNow(s: State, x: Input) { x.now > s.pruneDeadline }

  /** When the next periodic prune is due, in 32-bit arithmetic. */
  function NextPrune(now: nat): nat { (now + PRUNE_INTERVAL) % U32 }

  predicate EmergencyDue(s: State, x: Input) { x.now > s.emergency + EMER_PRUNE_INTERVAL }

  /** The table that the fragment meets. */
  function Met(s: State, x: Input): map<FragKey, Cell> {
    IfDue(PrunesNow(s, x), s.m, Cutoff(x.now, PRUNE_OFFSET))
  }

  /** A table that is emptied leaves the sentinel pointing at a freed node. */
  predicate StaleAfter(stale: bool, m: map<FragKey, Cell>, m': map<FragKey, Cell>) {
    m' == map[] && (stale || m != map[])
  }

  lemma StaleTwice(s: State, x: Input)
    requires s.stale ==> s.m == map[]
    ensures forall m' :: StaleAfter(StaleAfter(s.stale, s.m, Met(s, x)), Met(s, x), m') == StaleAfter(s.stale, s.m, m')
  {
    hide Cutoff;
  }

  /** The fragment makes a prune start at a freed node: the periodic one, or an emergency prune without memory. */
  predicate Faults(s: State, x: Input) {
    || (s.stale && PrunesNow(s, x))
    || (StaleAfter(s.stale, s.m, Met(s, x)) && !x.memory && EmergencyDue(s, x))
  }

  function ArrivalOf(s: State, x: Input, out: Outcome): Arrival {
    Arrival(x.key, x.frag, x.now, out, x.memory, EmergencyDue(s, x), PrunesNow(s, x))
  }

  /** The whole effect of an input that does not fault. */
  ghost predicate Handles(s: State, x: Input, out: Outcome, s': State, env: Env) {
    && !Faults(s, x)
    && HandlerStep(s.m, s'.m, ArrivalOf(s, x, out), env)
    && s'.stale == StaleAfter(s.stale, s.m, s'.m)
    && s'.pruneDeadline == (if PrunesNow(s, x) then NextPrune(x.now) else s.pruneDeadline)
    && s'.emergency == (if EmergencyDue(s, x) && Refuses(Met(s, x), x.key, x.now, env, x.memory) then x.now else s.emergency)
  }

  ghost predicate Trace(ss: seq<State>, ins: seq<Input>, outs: seq<Outcome>, env: Env) {
    && |ss| == |ins| + 1 && |outs| == |ins|
    && forall i :: 0 <= i < |ins| ==> Handles(ss[i], ins[i], outs[i], ss[i + 1], env)
  }

  lemma TraceNext(ss: seq<State>, ins: seq<Input>, outs: seq<Outcome>, x: Input, out: Outcome, s: State, env: Env)
    requires Trace(ss, ins, outs, env) && Handles(ss[|ins|], x, out, s, env)
    ensures Trace(ss + [s], ins + [x], outs + [out], env)
  {
    hide Handles;
  }

  function Tables(ss: seq<State>): seq<map<FragKey, Cell>> {
    seq(|ss|, i requires 0 <= i < |ss| => ss[i].m)
  }

  function Arrivals(ss: seq<State>, ins: seq<Input>, outs: seq<Outcome>): seq<Arrival>
    requires |ss| == |ins| + 1 && |outs| == |ins|
  {
    seq(|ins|, i requires 0 <= i < |ins| => ArrivalOf(ss[i], ins[i], outs[i]))
  }

  lemma TraceIsRun(ss: seq<State>, ins: seq<Input>, outs: seq<Outcome>, env: Env)
    requires Trace(ss, ins, outs, env)
    ensures Run(Tables(ss), Arrivals(ss, ins, outs), env)
  {
    hide FragStep, ArrivalOf;
    forall i | 0 <= i < |ins| ensures HandlerStep(ss[i].m, ss[i + 1].m, ArrivalOf(ss[i], ins[i], outs[i]), env) {
      assert Handles(ss[i], ins[i], outs[i], ss[i + 1], env);
    }
  }

  /** The fragments of one datagram among the inputs. */
  function Own(ins: seq<Input>, k: FragKey): seq<Fragment> {
    if ins == [] then []
    else
      var x := ins[|ins| - 1];
      Own(ins[..|ins| - 1], k) + if x.key == k then [x.frag] else []
  }

  lemma {:induction false} OwnIsMine(ss: seq<State>, ins: seq<Input>, outs: seq<Outcome>, k: FragKey)
    requires |ss| == |ins| + 1 && |outs| == |ins|
    ensures Mine(Arrivals(ss, ins, outs), k) == Own(ins, k)
    decreases |ins|
  {
    if ins != [] {
      var n := |ins| - 1;
      OwnIsMine(ss[..n + 1], ins[..n], outs[..n], k);
      assert Arrivals(ss, ins, outs)[..n] == Arrivals(ss[..n + 1], ins[..n], outs[..n]);
    }
  }

  /**
   * Every fragment of a datagram that got a blank cell is answered as promised, in any trace of the table
   * within that cell's lifetime; what is promised depends on the inputs alone.
   */
  lemma {:induction false} DatagramTrace(ss: seq<State>, ins: seq<Input>, outs: seq<Outcome>, k: FragKey, env: Env)
    requires Trace(ss, ins, outs, env) && ins != []
    requires ins[0].key == k && k in ss[1].m && ss[1].m[k] == Take(ZeroCell, ins[0].frag, ins[0].now, env.sampled)
    requires outs[0] == TakeOutcome(ins[0].frag) && ins[0].now + IPF_TIMEOUT < U32
    requires forall i :: 0 <= i < |ins| ==> ins[i].now < ins[0].now + IPF_TIMEOUT
    ensures Own(ins, k) != [] && k in ss[|ins|].m
    ensures ins[|ins| - 1].key == k ==> outs[|ins| - 1] == Promise(Own(ins, k), env.sampled)
  {
    hide Take, Promise, HandlerStep, TakeOutcome;
    TraceIsRun(ss, ins, outs, env);
    OwnIsMine(ss, ins, outs, k);
    DatagramRun(Tables(ss), Arrivals(ss, ins, outs), k, env);
  }

  /** From an empty, never used table the sentinel dangles exactly when the table is empty but has held something. */
  lemma {:induction false} StaleExactly(ss: seq<State>, ins: seq<Input>, outs: seq<Outcome>, env: Env, n: nat)
    requires Trace(ss, ins, outs, env) && ss[0].m == map[] && !ss[0].stale && n < |ss|
    ensures ss[n].stale <==> ss[n].m == map[] && exists j :: 0 <= j < n && ss[j].m != map[]
  {
    hide HandlerStep;
    if n > 0 {
      StaleExactly(ss, ins, outs, env, n - 1);
      assert Handles(ss[n - 1], ins[n - 1], outs[n - 1], ss[n], env);
    }
  }

  // ----- recycled nodes

  /** What a live cell answers to a sequence of its fragments. */
  function Answers(c: Cell, fs: seq<Fragment>, sampled: bool): seq<Outcome>
    decreases |fs|
  {
    if fs == [] then [] else [Meet(c, fs[0], sampled).1] + Answers(Meet(c, fs[0], sampled).0, fs[1..], sampled)
  }

  lemma {:induction false} HeaderUnseen(c: Cell, d: Cell, fs: seq<Fragment>, sampled: bool)
    requires c.gotFirst == d.gotFirst
    requires if c.gotFirst then c.hdr == d.hdr else c.a == d.a && c.pa == d.pa
    ensures Answers(c, fs, sampled) == Answers(d, fs, sampled)
    decreases |fs|
  {
    if fs != [] {
      HeaderUnseen(Meet(c, fs[0], sampled).0, Meet(d, fs[0], sampled).0, fs[1..], sampled);
    }
  }

  /**
   * A recycled node is not blank.  It answers every continuation of the new datagram as a fresh node would
   * exactly when the new datagram starts with its first fragment, or the old cell had neither a first
   * fragment nor a packet count, nor, if nothing is counted, a byte count.
   */
  lemma RecycledLikeFreshExactly(c: Cell, f: Fragment, now: nat, sampled: bool)
    requires c.pa < U16
    ensures var r, z := Take(c, f, now, sampled), Take(ZeroCell, f, now, sampled);
      (forall fs :: Answers(r, fs, sampled) == Answers(z, fs, sampled))
        <==> f.First() || (!c.gotFirst && c.pa == 0 && (sampled ==> c.a == 0))
  {
    var r, z := Take(c, f, now, sampled), Take(ZeroCell, f, now, sampled);
    if f.First() || (!c.gotFirst && c.pa == 0 && (sampled ==> c.a == 0)) {
      forall fs ensures Answers(r, fs, sampled) == Answers(z, fs, sampled) {
        HeaderUnseen(r, z, fs, sampled);
      }
    } else {
      var g := Fragment(if c.gotFirst then 1 else 0, 0, []);
      assert !c.gotFirst ==> (r.a, r.pa) != (z.a, z.pa);
      assert Meet(r, g, sampled).1 != Meet(z, g, sampled).1;
      assert Answers(r, [g], sampled)[0] == Meet(r, g, sampled).1;
      assert Answers(z, [g], sampled)[0] == Meet(z, g, sampled).1;
      assert Answers(r, [g], sampled) != Answers(z, [g], sampled);
    }
  }
}
