/** The in-memory accounting table of src/acct.c as a map from key to counters, and what it promises over a run. */
module AcctSpec {
  import opened Wrappers

  /** Addresses, and the rest of the fixed primitives as one opaque value. */
  datatype Primitives = Primitives(src: nat, dst: nat, rest: nat)

  /** The primitives and the seven sub-records, each of which may be missing. */
  datatype Key = Key(prims: Primitives, bgp: Option<nat>, lbgp: Option<nat>, xlate: Option<nat>, mpls: Option<nat>,
                     tunnel: Option<nat>, custom: Option<nat>, vlen: Option<nat>)

  const EMPTY := Key(Primitives(0, 0, 0), None, None, None, None, None, None, None)

  datatype Counter = Packets | Flows | Bytes

  datatype Record = Record(key: Key, packets: nat, flows: nat, bytes: nat, tcp: bv8, tunnelTcp: bv8, flowType: nat) {
    function Get(c: Counter): nat {
      match c case Packets => packets case Flows => flows case Bytes => bytes
    }

    predicate Counts() { packets > 0 || bytes > 0 }
  }

  datatype Row = Row(packets: nat, flows: nat, bytes: nat, tcp: bv8, tunnelTcp: bv8, flowType: nat, reset: bool) {
    function Get(c: Counter): nat {
      match c case Packets => packets case Flows => flows case Bytes => bytes
    }
  }

  const Zero := Row(0, 0, 0, 0, 0, 0, false)

  // ----- comparing keys

  /** What the driver passes: missing sub-records are replaced by empty ones. */
  predicate Full(k: Key) {
    k.bgp.Some? && k.lbgp.Some? && k.xlate.Some? && k.mpls.Some? && k.tunnel.Some? && k.custom.Some? && k.vlen.Some?
  }

  /** Two sub-records are not compared if either is missing. */
  predicate Agree(mine: Option<nat>, given: Option<nat>) {
    mine.Some? && given.Some? ==> mine == given
  }

  /** The legacy BGP sub-record is the exception: given but missing in the element, it is a difference. */
  predicate Matches(elem: Key, given: Key) {
    && elem.prims == given.prims && Agree(elem.bgp, given.bgp)
    && (given.lbgp.Some? ==> elem.lbgp == given.lbgp)
    && Agree(elem.xlate, given.xlate) && Agree(elem.mpls, given.mpls) && Agree(elem.tunnel, given.tunnel)
    && Agree(elem.custom, given.custom) && Agree(elem.vlen, given.vlen)
  }

  /** Among elements with every sub-record, comparing is equality if and only if the given key has every one, too. */
  lemma MatchIsEqualityExactly(given: Key)
    ensures (forall elem :: Full(elem) ==> (Matches(elem, given) <==> elem == given)) <==> Full(given)
  {
    var full := Key(given.prims, OrEmpty(given.bgp), OrEmpty(given.lbgp), OrEmpty(given.xlate), OrEmpty(given.mpls),
                    OrEmpty(given.tunnel), OrEmpty(given.custom), OrEmpty(given.vlen));
    assert Full(full) && Matches(full, given);
  }

  function OrEmpty(sub: Option<nat>): Option<nat> {
    if sub.None? then Some(0) else sub
  }

  /** With every sub-record present comparing is equality, and an empty slot matches nothing. */
  lemma FullMatchIsEquality(elem: Key, given: Key)
    requires Full(given)
    ensures Full(elem) ==> (Matches(elem, given) <==> elem == given)
    ensures elem.lbgp.None? ==> !Matches(elem, given)
  {
  }

  /** Without that, one record may match two different elements, and matching is not symmetric. */
  lemma PartialMatchIsNot(p: Primitives, x: nat, y: nat)
    requires x != y
    ensures var bare := Key(p, None, None, None, None, None, None, None);
      var one, two, other := bare.(xlate := Some(x)), bare.(xlate := Some(y)), bare.(lbgp := Some(x));
      && Matches(one, bare) && Matches(two, bare) && !Matches(one, two)
      && Matches(other, bare) && !Matches(bare, other)
  {
  }

  // ----- one insertion

  /** `flows` is not reset. */
  function ResetCounters(r: Row): Row {
    r.(reset := false, packets := 0, bytes := 0, tcp := 0, tunnelTcp := 0, flowType := 0)
  }

  function Or(a: bv8, b: bv8): bv8 { a | b }

  function Added(r: Row, x: Record): Row {
    r.(packets := r.packets + x.packets, flows := r.flows + x.flows, bytes := r.bytes + x.bytes,
       tcp := Or(r.tcp, x.tcp), tunnelTcp := Or(r.tunnelTcp, x.tunnelTcp), flowType := x.flowType)
  }

  function Bumped(r: Row, x: Record): Row {
    Added(if r.reset then ResetCounters(r) else r, x)
  }

  /** Where a new key goes: nowhere, into a blank element, or over a row without packets and bytes. */
  datatype Room = NoRoom | Blank | Takes(key: Key)

  /** A row without packets and bytes reads as a free slot. */
  predicate Hollow(r: Row) {
    r.packets == 0 && r.bytes == 0
  }

  /** Only the row of a new key depends on the room for it. */
  function Inserted(t: map<Key, Row>, x: Record, room: Room): map<Key, Row> {
    if x.key in t then t[x.key := Bumped(t[x.key], x)]
    else match room
      case NoRoom => t
      case Blank => t[x.key := Added(Zero, x)]
      case Takes(k) => if k in t then (t - {k})[x.key := Added(t[k].(reset := false), x)] else t
  }

  /** After a reset request the next record starts packets, bytes and flags over, while flows go on counting. */
  lemma ResetStartsOver(t: map<Key, Row>, x: Record, room: Room)
    requires x.key in t && t[x.key].reset
    ensures Inserted(t, x, room) ==
      t[x.key := Row(x.packets, t[x.key].flows + x.flows, x.bytes, x.tcp, x.tunnelTcp, x.flowType, false)]
  {
    assert Or(0, x.tcp) == x.tcp && Or(0, x.tunnelTcp) == x.tunnelTcp;
  }

  /** The key that takes over a row inherits its flow counter and flags. */
  lemma TwoKeysOneRow(first: Record, second: Record)
    requires first.key != second.key
    ensures Inserted(Inserted(map[], first, Blank), second, Takes(first.key)) == map[second.key := Added(Added(Zero, first), second)]
  {
    hide Or;
    assert (map[first.key := Added(Zero, first)] - {first.key}) == map[];
  }

  /** An insertion leaves no reset request behind. */
  lemma InsertedPendsNothing(t: map<Key, Row>, x: Record, room: Room)
    requires forall k :: k in t ==> !t[k].reset
    ensures forall k :: k in Inserted(t, x, room) ==> !Inserted(t, x, room)[k].reset
  {
    hide Or;
  }

  // ----- a run without resets

  datatype Insertion = Insertion(x: Record, room: Room)

  function Table(ins: seq<Insertion>): map<Key, Row> {
    if ins == [] then map[] else
    var last := |ins| - 1;
    Inserted(Table(ins[..last]), ins[last].x, ins[last].room)
  }

  /** Only rows without packets and bytes are taken over. */
  predicate Fits(t: map<Key, Row>, i: Insertion) {
    i.room.Takes? && i.x.key !in t ==> i.room.key in t && Hollow(t[i.room.key])
  }

  ghost predicate Possible(ins: seq<Insertion>) {
    forall n :: 0 <= n < |ins| ==> Fits(Table(ins[..n]), ins[n])
  }

  /** The n-th record takes over the row of another key. */
  predicate Overwrites(ins: seq<Insertion>, n: nat)
    requires n < |ins|
  {
    ins[n].room.Takes? && ins[n].x.key !in Table(ins[..n])
  }

  predicate Stored(t: map<Key, Row>, i: Insertion) {
    i.x.key in t || !i.room.NoRoom?
  }

  /** One more possible insertion. */
  lemma PossibleNext(ins: seq<Insertion>, i: Insertion)
    requires Possible(ins) && Fits(Table(ins), i)
    ensures Possible(ins + [i]) && Table(ins + [i]) == Inserted(Table(ins), i.x, i.room)
    ensures AllStored(ins + [i]) <==> AllStored(ins) && Stored(Table(ins), i)
  {
    hide Inserted, Fits, Stored;
    var more := ins + [i];
    assert more[..|ins|] == ins;
    forall n | 0 <= n < |more| ensures Fits(Table(more[..n]), more[n]) {
      assert n < |ins| ==> more[..n] == ins[..n] && Fits(Table(ins[..n]), ins[n]);
    }
    AllStoredPrefix(more, |ins|);
    if AllStored(ins) && Stored(Table(ins), i) {
      forall n | 0 <= n < |more| ensures Stored(Table(more[..n]), more[n]) {
        assert n < |ins| ==> more[..n] == ins[..n] && Stored(Table(ins[..n]), ins[n]);
      }
    }
    assert AllStored(more) ==> Stored(Table(more[..|ins|]), more[|ins|]);
  }

  /** No record was dropped. */
  ghost predicate AllStored(ins: seq<Insertion>) {
    forall n :: 0 <= n < |ins| ==> Stored(Table(ins[..n]), ins[n])
  }

  lemma NoInsertions()
    ensures Possible([]) && AllStored([]) && Table([]) == map[]
  {
  }

  lemma AllStoredPrefix(ins: seq<Insertion>, n: nat)
    requires n <= |ins|
    ensures AllStored(ins) ==> AllStored(ins[..n])
  {
    if AllStored(ins) {
      forall j | 0 <= j < n ensures Stored(Table(ins[..n][..j]), ins[..n][j]) {
        assert ins[..n][..j] == ins[..j] && Stored(Table(ins[..j]), ins[j]);
      }
    }
  }

  /** The records of key `k` that were stored, in order. */
  function StoredAt(ins: seq<Insertion>, k: Key): seq<Record> {
    if ins == [] then [] else
    var last := |ins| - 1;
    StoredAt(ins[..last], k) + if Stored(Table(ins[..last]), ins[last]) && ins[last].x.key == k then [ins[last].x] else []
  }

  function Sum(xs: seq<Record>, c: Counter): nat {
    if xs == [] then 0 else Sum(xs[..|xs| - 1], c) + xs[|xs| - 1].Get(c)
  }

  function Flags(xs: seq<Record>): bv8 {
    if xs == [] then 0 else Or(Flags(xs[..|xs| - 1]), xs[|xs| - 1].tcp)
  }

  function TunnelFlags(xs: seq<Record>): bv8 {
    if xs == [] then 0 else Or(TunnelFlags(xs[..|xs| - 1]), xs[|xs| - 1].tunnelTcp)
  }

  /** The counters of the records `xs` together. */
  ghost predicate Summary(r: Row, xs: seq<Record>) {
    && xs != [] && !r.reset
    && (forall c :: r.Get(c) == Sum(xs, c))
    && r.tcp == Flags(xs) && r.tunnelTcp == TunnelFlags(xs) && r.flowType == xs[|xs| - 1].flowType
  }

  lemma SumsNext(xs: seq<Record>, x: Record)
    ensures forall c :: Sum(xs + [x], c) == Sum(xs, c) + x.Get(c)
    ensures Flags(xs + [x]) == Or(Flags(xs), x.tcp)
    ensures TunnelFlags(xs + [x]) == Or(TunnelFlags(xs), x.tunnelTcp)
  {
    var ys := xs + [x];
    assert ys[..|ys| - 1] == xs;
  }

  lemma SummaryNext(r: Row, xs: seq<Record>, x: Record)
    requires if xs == [] then r == Zero else Summary(r, xs)
    ensures Summary(Added(r, x), xs + [x])
  {
    SumsNext(xs, x);
    assert xs == [] ==> Flags(xs) == 0 && TunnelFlags(xs) == 0 && forall c :: Sum(xs, c) == 0;
    hide Flags, TunnelFlags, Sum, Or;
  }

  lemma NotReset(r: Row, xs: seq<Record>)
    requires Summary(r, xs)
    ensures !r.reset
  {
  }

  /** Key `k` is in the table exactly when a record of it was stored, and its row sums up exactly those records. */
  ghost predicate Summarised(ins: seq<Insertion>, k: Key) {
    && (k in Table(ins) <==> StoredAt(ins, k) != [])
    && (k in Table(ins) ==> Summary(Table(ins)[k], StoredAt(ins, k)))
  }

  lemma SummarisedNext(ins: seq<Insertion>, k: Key)
    requires ins != [] && !Overwrites(ins, |ins| - 1) && Summarised(ins[..|ins| - 1], k)
    ensures Summarised(ins, k)
  {
    hide Summary, Added, Or;
    var last := |ins| - 1;
    var before, x := ins[..last], ins[last].x;
    if Stored(Table(before), ins[last]) && x.key == k {
      var r := if k in Table(before) then Table(before)[k] else Zero;
      if k in Table(before) {
        NotReset(r, StoredAt(before, k));
      }
      SummaryNext(r, StoredAt(before, k), x);
      assert Table(ins)[k] == Added(r, x);
    } else {
      assert StoredAt(ins, k) == StoredAt(before, k);
    }
  }

  /** No record takes over another key's row. */
  ghost predicate NoneOverwrites(ins: seq<Insertion>) {
    forall n :: 0 <= n < |ins| ==> !Overwrites(ins, n)
  }

  lemma NoneOverwritesBefore(ins: seq<Insertion>, n: nat)
    requires NoneOverwrites(ins) && n <= |ins|
    ensures NoneOverwrites(ins[..n])
  {
    forall j | 0 <= j < n ensures !Overwrites(ins[..n], j) {
      assert ins[..n][..j] == ins[..j] && !Overwrites(ins, j);
    }
  }

  /** As long as no record has taken over another key's row, the table sums up what was stored. */
  lemma {:induction false} TableSummarises(ins: seq<Insertion>, k: Key)
    requires NoneOverwrites(ins)
    ensures Summarised(ins, k)
  {
    if ins != [] {
      NoneOverwritesBefore(ins, |ins| - 1);
      TableSummarises(ins[..|ins| - 1], k);
      SummarisedNext(ins, k);
    }
  }

  /** A key whose row has just been taken over is gone, although a record of it was stored. */
  lemma OverwrittenIsForgotten(ins: seq<Insertion>, k: Key)
    requires ins != [] && Fits(Table(ins[..|ins| - 1]), ins[|ins| - 1])
    requires Overwrites(ins, |ins| - 1) && ins[|ins| - 1].room.key == k && Summarised(ins[..|ins| - 1], k)
    ensures !Summarised(ins, k)
  {
    assert StoredAt(ins, k) == StoredAt(ins[..|ins| - 1], k);
  }

  ghost predicate AlwaysSummarised(ins: seq<Insertion>) {
    forall n, k :: 0 <= n <= |ins| ==> Summarised(ins[..n], k)
  }

  lemma OverwriteShows(ins: seq<Insertion>, n: nat)
    requires Possible(ins) && n < |ins| && Overwrites(ins, n)
    ensures !AlwaysSummarised(ins)
  {
    var upTo, k := ins[..n + 1], ins[n].room.key;
    assert upTo[..n] == ins[..n] && Fits(Table(ins[..n]), ins[n]);
    hide Table, StoredAt, Summary, Summarised;
    if AlwaysSummarised(ins) {
      assert Summarised(ins[..n], k) && Summarised(upTo, k);
      OverwrittenIsForgotten(upTo, k);
      assert false;
    }
  }

  /** The table sums up what was stored, all along a run, if and only if no record takes over another key's row. */
  lemma SummarisesExactly(ins: seq<Insertion>)
    requires Possible(ins)
    ensures AlwaysSummarised(ins) <==> NoneOverwrites(ins)
  {
    hide Summarised, Possible, Overwrites;
    if NoneOverwrites(ins) {
      forall n, k | 0 <= n <= |ins| ensures Summarised(ins[..n], k) {
        NoneOverwritesBefore(ins, n);
        TableSummarises(ins[..n], k);
      }
    } else {
      var n :| 0 <= n < |ins| && Overwrites(ins, n);
      OverwriteShows(ins, n);
    }
  }

  ghost predicate Counting(t: map<Key, Row>) {
    forall k :: k in t ==> !Hollow(t[k]) && !t[k].reset
  }

  lemma InsertedCounts(t: map<Key, Row>, i: Insertion)
    requires Counting(t) && i.x.Counts() && Fits(t, i)
    ensures Counting(Inserted(t, i.x, i.room))
  {
    hide Or;
  }

  /** Records with packets or bytes never let that happen. */
  lemma {:induction false} CountingNeverOverwrites(ins: seq<Insertion>, n: nat)
    requires Possible(ins) && n <= |ins| && forall i :: 0 <= i < n ==> ins[i].x.Counts()
    ensures Counting(Table(ins[..n])) && (n < |ins| ==> !Overwrites(ins, n))
  {
    if n > 0 {
      CountingNeverOverwrites(ins, n - 1);
      assert ins[..n][..n - 1] == ins[..n - 1] && Fits(Table(ins[..n - 1]), ins[n - 1]);
      hide Inserted;
      InsertedCounts(Table(ins[..n - 1]), ins[n - 1]);
    }
    assert n < |ins| ==> Fits(Table(ins[..n]), ins[n]);
  }

  // ----- totals

  /** The total of one counter over the whole table. */
  ghost function Total(t: map<Key, Row>, c: Counter): nat
    decreases |t|
  {
    if t == map[] then 0 else
    var k :| k in t;
    t[k].Get(c) + Total(t - {k}, c)
  }

  /** The key picked first does not matter. */
  lemma {:induction false} TotalWithout(t: map<Key, Row>, k: Key, c: Counter)
    requires k in t
    ensures Total(t, c) == t[k].Get(c) + Total(t - {k}, c)
    decreases |t|
  {
    var j :| j in t && Total(t, c) == t[j].Get(c) + Total(t - {j}, c);
    if j != k {
      TotalWithout(t - {j}, k, c);
      TotalWithout(t - {k}, j, c);
      assert t - {j} - {k} == t - {k} - {j};
    }
  }

  lemma TotalPut(t: map<Key, Row>, k: Key, r: Row, c: Counter)
    ensures Total(t[k := r], c) == r.Get(c) + Total(t - {k}, c)
  {
    TotalWithout(t[k := r], k, c);
    assert t[k := r] - {k} == t - {k};
  }

  function Input(ins: seq<Insertion>, c: Counter): nat {
    if ins == [] then 0 else Input(ins[..|ins| - 1], c) + ins[|ins| - 1].x.Get(c)
  }

  function Dropped(ins: seq<Insertion>, c: Counter): nat {
    if ins == [] then 0 else
    var last := |ins| - 1;
    Dropped(ins[..last], c) + if Stored(Table(ins[..last]), ins[last]) then 0 else ins[last].x.Get(c)
  }

  lemma {:induction false} NoRowIsReset(ins: seq<Insertion>)
    ensures forall k :: k in Table(ins) ==> !Table(ins)[k].reset
  {
    if ins != [] {
      NoRowIsReset(ins[..|ins| - 1]);
    }
  }

  lemma PossiblePrefix(ins: seq<Insertion>, n: nat)
    requires Possible(ins) && n <= |ins|
    ensures Possible(ins[..n])
  {
    forall j | 0 <= j < n ensures Fits(Table(ins[..n][..j]), ins[..n][j]) {
      assert ins[..n][..j] == ins[..j];
    }
  }

  /** Nothing is lost or made up, whatever the records: what is in the table and what was dropped add up to the input. */
  lemma {:induction false} CountersConserved(ins: seq<Insertion>, c: Counter)
    requires Possible(ins)
    ensures Total(Table(ins), c) + Dropped(ins, c) == Input(ins, c)
  {
    if ins != [] {
      hide Or;
      var last := |ins| - 1;
      var t, x := Table(ins[..last]), ins[last].x;
      assert Fits(t, ins[last]);
      PossiblePrefix(ins, last);
      CountersConserved(ins[..last], c);
      NoRowIsReset(ins[..last]);
      if x.key in t {
        TotalWithout(t, x.key, c);
        TotalPut(t, x.key, Added(t[x.key], x), c);
      } else if ins[last].room.Blank? {
        TotalPut(t, x.key, Added(Zero, x), c);
        assert t - {x.key} == t;
      } else if ins[last].room.Takes? {
        var k := ins[last].room.key;
        TotalWithout(t, k, c);
        TotalPut(t - {k}, x.key, Added(t[k].(reset := false), x), c);
        assert t - {k} - {x.key} == t - {k};
      }
    }
  }

  lemma {:induction false} NothingDropped(ins: seq<Insertion>, c: Counter)
    requires AllStored(ins)
    ensures Dropped(ins, c) == 0
  {
    if ins != [] {
      var last := |ins| - 1;
      AllStoredPrefix(ins, last);
      NothingDropped(ins[..last], c);
      assert Stored(Table(ins[..last]), ins[last]);
    }
  }

  /** A key once in the table keeps accumulating, unless its row is taken over. */
  lemma {:induction false} StoredKeysStay(ins: seq<Insertion>, n: nat, k: Key)
    requires n <= |ins| && k in Table(ins[..n])
    requires forall i :: n <= i < |ins| ==> !(Overwrites(ins, i) && ins[i].room.key == k)
    ensures k in Table(ins)
    decreases |ins|
  {
    if n < |ins| {
      var last := |ins| - 1;
      var before := ins[..last];
      assert before[..n] == ins[..n];
      forall i | n <= i < last ensures !(Overwrites(before, i) && before[i].room.key == k) {
        assert before[..i] == ins[..i] && !(Overwrites(ins, i) && ins[i].room.key == k);
      }
      StoredKeysStay(before, n, k);
      assert !(Overwrites(ins, last) && ins[last].room.key == k);
    } else {
      assert ins[..n] == ins;
    }
  }

  // ----- a run without drops, by its records alone

  /** The records of key `k`, in order. */
  function Having(xs: seq<Record>, k: Key): seq<Record> {
    if xs == [] then [] else Having(xs[..|xs| - 1], k) + if xs[|xs| - 1].key == k then [xs[|xs| - 1]] else []
  }

  /** Each key that occurs has one row, which sums up its records. */
  ghost predicate SumsUp(t: map<Key, Row>, xs: seq<Record>) {
    forall k :: (k in t <==> Having(xs, k) != []) && (k in t ==> Summary(t[k], Having(xs, k)))
  }

  predicate RecordsOf(ins: seq<Insertion>, xs: seq<Record>) {
    |ins| == |xs| && forall i :: 0 <= i < |ins| ==> ins[i].x == xs[i]
  }

  lemma {:induction false} AllAreStored(ins: seq<Insertion>, xs: seq<Record>, k: Key)
    requires AllStored(ins) && RecordsOf(ins, xs)
    ensures StoredAt(ins, k) == Having(xs, k)
  {
    if ins != [] {
      var last := |ins| - 1;
      AllStoredPrefix(ins, last);
      AllAreStored(ins[..last], xs[..last], k);
      assert Stored(Table(ins[..last]), ins[last]);
    }
  }

  /** If no record is dropped or takes over another key's row, the table sums up the records, whatever the room was. */
  lemma TableIsSums(ins: seq<Insertion>, xs: seq<Record>)
    requires AllStored(ins) && NoneOverwrites(ins) && RecordsOf(ins, xs)
    ensures SumsUp(Table(ins), xs)
  {
    forall k ensures (k in Table(ins) <==> Having(xs, k) != []) && (k in Table(ins) ==> Summary(Table(ins)[k], Having(xs, k))) {
      TableSummarises(ins, k);
      AllAreStored(ins, xs, k);
    }
  }

  predicate HasFlag(flags: bv8, m: bv8) { flags & m != 0 }

  /** The flags are the union of the records'. */
  lemma {:induction false} FlagsAreUnion(xs: seq<Record>, m: bv8)
    ensures HasFlag(Flags(xs), m) <==> exists i :: 0 <= i < |xs| && HasFlag(xs[i].tcp, m)
    ensures HasFlag(TunnelFlags(xs), m) <==> exists i :: 0 <= i < |xs| && HasFlag(xs[i].tunnelTcp, m)
  {
    if xs == [] {
      NoFlag(m);
    } else {
      var last := |xs| - 1;
      var init, x := xs[..last], xs[last];
      FlagsAreUnion(init, m);
      OrHas(Flags(init), x.tcp, m);
      OrHas(TunnelFlags(init), x.tunnelTcp, m);
      hide Or, HasFlag;
      assert forall i :: 0 <= i < last ==> xs[i] == init[i];
    }
  }

  lemma NoFlag(m: bv8)
    ensures !HasFlag(0, m)
  {
  }

  lemma OrHas(a: bv8, b: bv8, m: bv8)
    ensures HasFlag(Or(a, b), m) <==> HasFlag(a, m) || HasFlag(b, m)
  {
    assert (a | b) & m == (a & m) | (b & m);
  }

  // ----- counting per host

  function Source(x: Record): Record { x.(key := x.key.(prims := x.key.prims.(dst := 0))) }

  function Destination(x: Record): Record { x.(key := x.key.(prims := x.key.prims.(src := x.key.prims.dst, dst := 0))) }

  /** Each record is counted once for its source and once for its destination. */
  function PerHost(xs: seq<Record>): seq<Insertion> {
    if xs == [] then [] else
    var x := xs[|xs| - 1];
    PerHost(xs[..|xs| - 1]) + [Insertion(Source(x), Blank), Insertion(Destination(x), Blank)]
  }

  /** The same key, but for the addresses. */
  predicate SameRest(j: Key, k: Key) {
    && j.prims.rest == k.prims.rest && j.bgp == k.bgp && j.lbgp == k.lbgp && j.xlate == k.xlate
    && j.mpls == k.mpls && j.tunnel == k.tunnel && j.custom == k.custom && j.vlen == k.vlen
  }

  /** What host `h` sent, in records that are otherwise like `k`. */
  function SentBy(xs: seq<Record>, h: nat, k: Key, c: Counter): nat {
    if xs == [] then 0 else
    var x := xs[|xs| - 1];
    SentBy(xs[..|xs| - 1], h, k, c) + if x.key.prims.src == h && SameRest(x.key, k) then x.Get(c) else 0
  }

  /** What it received. */
  function ReceivedBy(xs: seq<Record>, h: nat, k: Key, c: Counter): nat {
    if xs == [] then 0 else
    var x := xs[|xs| - 1];
    ReceivedBy(xs[..|xs| - 1], h, k, c) + if x.key.prims.dst == h && SameRest(x.key, k) then x.Get(c) else 0
  }

  /** The key of a host has it as the source and no destination; its traffic is what it sent and what it received. */
  function Traffic(xs: seq<Record>, k: Key, c: Counter): nat {
    if k.prims.dst != 0 then 0 else SentBy(xs, k.prims.src, k, c) + ReceivedBy(xs, k.prims.src, k, c)
  }

  function At(t: map<Key, Row>, k: Key, c: Counter): nat {
    if k in t then t[k].Get(c) else 0
  }

  lemma AtInserted(ins: seq<Insertion>, x: Record, k: Key, c: Counter)
    ensures var more := ins + [Insertion(x, Blank)];
      && At(Table(more), k, c) == At(Table(ins), k, c) + (if x.key == k then x.Get(c) else 0)
      && Input(more, c) == Input(ins, c) + x.Get(c) && Dropped(more, c) == Dropped(ins, c)
  {
    hide Or;
    var more := ins + [Insertion(x, Blank)];
    assert more[..|more| - 1] == ins;
    NoRowIsReset(ins);
  }

  /** Per-host counting: each key's counters are what its host sent plus what it received, and the totals are doubled. */
  lemma {:induction false} HostsCountTwice(xs: seq<Record>, k: Key, c: Counter)
    ensures At(Table(PerHost(xs)), k, c) == Traffic(xs, k, c)
    ensures Total(Table(PerHost(xs)), c) == 2 * Sum(xs, c)
  {
    HostsInput(xs, k, c);
    AllBlank(xs);
    CountersConserved(PerHost(xs), c);
  }

  /** The same records, whatever room they found. */
  predicate SameRecords(ins: seq<Insertion>, others: seq<Insertion>) {
    |ins| == |others| && forall i :: 0 <= i < |ins| ==> ins[i].x == others[i].x
  }

  lemma {:induction false} SameInput(ins: seq<Insertion>, others: seq<Insertion>, c: Counter)
    requires SameRecords(ins, others)
    ensures Input(ins, c) == Input(others, c)
  {
    if ins != [] {
      SameInput(ins[..|ins| - 1], others[..|ins| - 1], c);
    }
  }

  /** If nothing is dropped or taken over, it does not matter what room each record found. */
  lemma {:induction false} RoomsDoNotMatter(ins: seq<Insertion>, blank: seq<Insertion>)
    requires SameRecords(ins, blank) && forall i :: 0 <= i < |blank| ==> blank[i].room.Blank?
    requires AllStored(ins) && NoneOverwrites(ins)
    ensures Table(ins) == Table(blank)
  {
    if ins != [] {
      var last := |ins| - 1;
      AllStoredPrefix(ins, last);
      NoneOverwritesBefore(ins, last);
      RoomsDoNotMatter(ins[..last], blank[..last]);
      assert Stored(Table(ins[..last]), ins[last]) && !Overwrites(ins, last);
    }
  }

  lemma {:induction false} HostsCount(xs: seq<Record>)
    requires forall i :: 0 <= i < |xs| ==> xs[i].Counts()
    ensures forall i :: 0 <= i < |PerHost(xs)| ==> PerHost(xs)[i].x.Counts()
  {
    if xs != [] {
      HostsCount(xs[..|xs| - 1]);
    }
  }

  lemma NoHosts(xs: seq<Record>)
    ensures SameRecords([], PerHost(xs[..0]))
  {
  }

  /** Both ends of one more record. */
  lemma HostsNext(ins: seq<Insertion>, xs: seq<Record>, n: nat, room: Room, roomAgain: Room)
    requires n < |xs| && SameRecords(ins, PerHost(xs[..n]))
    ensures SameRecords(ins + [Insertion(Source(xs[n]), room)] + [Insertion(Destination(xs[n]), roomAgain)], PerHost(xs[..n + 1]))
  {
    assert xs[..n + 1][..n] == xs[..n];
  }

  /** What insertions of the records per host leave in the table, if nothing is dropped. */
  lemma HostsStored(ins: seq<Insertion>, xs: seq<Record>)
    requires Possible(ins) && AllStored(ins) && SameRecords(ins, PerHost(xs))
    ensures forall c :: Total(Table(ins), c) == 2 * Sum(xs, c)
    ensures NoneOverwrites(ins) ==> Table(ins) == Table(PerHost(xs)) && forall k, c :: At(Table(ins), k, c) == Traffic(xs, k, c)
  {
    hide Possible, AllStored, SameRecords, NoneOverwrites, Total, Table, Dropped, Input, Overwrites, Sum, PerHost, At, Traffic;
    AllBlank(xs);
    forall c ensures Total(Table(ins), c) == 2 * Sum(xs, c) {
      CountersConserved(ins, c);
      NothingDropped(ins, c);
      SameInput(ins, PerHost(xs), c);
      HostsInput(xs, EMPTY, c);
    }
    if NoneOverwrites(ins) {
      RoomsDoNotMatter(ins, PerHost(xs));
      forall k, c ensures At(Table(ins), k, c) == Traffic(xs, k, c) {
        HostsCountTwice(xs, k, c);
      }
    }
  }

  lemma CountingRun(ins: seq<Insertion>, others: seq<Insertion>)
    requires Possible(ins) && SameRecords(ins, others) && forall i :: 0 <= i < |others| ==> others[i].x.Counts()
    ensures NoneOverwrites(ins)
  {
    forall n | 0 <= n < |ins| ensures !Overwrites(ins, n) {
      CountingNeverOverwrites(ins, n);
    }
  }

  lemma {:induction false} AllBlank(xs: seq<Record>)
    ensures forall i :: 0 <= i < |PerHost(xs)| ==> PerHost(xs)[i].room.Blank?
  {
    if xs != [] {
      AllBlank(xs[..|xs| - 1]);
    }
  }

  lemma TrafficNext(xs: seq<Record>, k: Key, c: Counter)
    requires xs != []
    ensures var x := xs[|xs| - 1];
      Traffic(xs, k, c) == Traffic(xs[..|xs| - 1], k, c)
        + (if Source(x).key == k then x.Get(c) else 0) + (if Destination(x).key == k then x.Get(c) else 0)
  {
  }

  lemma {:induction false} HostsInput(xs: seq<Record>, k: Key, c: Counter)
    ensures At(Table(PerHost(xs)), k, c) == Traffic(xs, k, c)
    ensures Input(PerHost(xs), c) == 2 * Sum(xs, c) && Dropped(PerHost(xs), c) == 0
  {
    if xs == [] {
      assert Table([]) == map[];
    } else {
      TrafficNext(xs, k, c);
      hide Table, Input, Dropped, At, Traffic;
      var before, x := PerHost(xs[..|xs| - 1]), xs[|xs| - 1];
      HostsInput(xs[..|xs| - 1], k, c);
      AtInserted(before, Source(x), k, c);
      AtInserted(before + [Insertion(Source(x), Blank)], Destination(x), k, c);
      assert Source(x).Get(c) == Destination(x).Get(c) == x.Get(c);
      assert PerHost(xs) == before + [Insertion(Source(x), Blank)] + [Insertion(Destination(x), Blank)];
    }
  }
}
