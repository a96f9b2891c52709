/** The accounting table of src/acct.c: hash chains, a last-used shortcut, and a pool that can run out. */
module AcctTable {
  import opened Wrappers
  import opened AcctSpec

  /** struct acc; pool memory is zeroed. */
  class Elem {
    var key: Key
    var row: Row
    var signature: nat
    var next: Elem?

    constructor ()
      ensures key == EMPTY && row == Zero && signature == 0 && next == null
    {
      key, row, signature, next := EMPTY, Zero, 0, null;
    }

    predicate Used()
      reads this`row
    {
      row.packets != 0 || row.bytes != 0
    }
  }

  datatype Place = Place(bucket: nat, index: nat)

  class AcctTable {
    const heads: seq<Elem>          // the array at `a`
    const lastUsed: array<Elem?>    // lru_elem_ptr
    const hash: Key -> nat
    const elemSize: nat
    const poolSize: nat
    var spaceLeft: nat              // current_pool->space_left
    var noMoreSpace: bool
    ghost var chains: seq<seq<Elem>>
    ghost var place: map<Elem, Place>
    ghost var holder: map<Key, Elem>

    function Pos(k: Key): (p: nat)
      requires heads != []
      ensures p < |heads|
    {
      hash(k) % |heads|
    }

    /** The elements of a chain follow each other, and every element is in one place. */
    ghost predicate Linked()
      reads this`chains, this`place, place.Keys`next
    {
      && |chains| == |heads|
      && (forall b :: 0 <= b < |chains| ==> chains[b] != [] && chains[b][0] == heads[b])
      && (forall b, i :: 0 <= b < |chains| && 0 <= i < |chains[b]| ==>
            chains[b][i] in place && place[chains[b][i]] == Place(b, i))
      && (forall e :: e in place ==> Sits(e))
    }

    /** Where `place` says that it is, and linked to what follows there. */
    ghost predicate Sits(e: Elem)
      requires e in place
      reads this`chains, this`place, e`next
    {
      var p := place[e];
      && p.bucket < |chains| && p.index < |chains[p.bucket]|
      && chains[p.bucket][p.index] == e && e.next == NextIn(chains[p.bucket], p.index)
    }

    static ghost function NextIn(chain: seq<Elem>, i: nat): Elem? {
      if i + 1 < |chain| then chain[i + 1] else null
    }

    /**
     * An element holds one key, in that key's chain, and if it has no packets and bytes it is the last of the chain;
     * or it is the blank head of an empty chain.
     */
    ghost predicate Filled(e: Elem)
      requires heads != []
      reads this`chains, this`place, this`holder, e`key, e`row, e`signature, e`next
    {
      e in place &&
      if Full(e.key)
      then && e.signature == hash(e.key) && place[e].bucket == Pos(e.key)
           && e.key in holder && holder[e.key] == e && (e.Used() || e.next == null)
      else && e.row.(reset := false) == Zero && e.key.lbgp.None?
           && place[e].bucket < |chains| && chains[place[e].bucket] == [e]
    }

    ghost predicate Valid()
      reads this`chains, this`place, this`holder, lastUsed, place.Keys
    {
      && heads != [] && lastUsed.Length == |heads| && 0 < elemSize <= poolSize
      && Linked()
      && (forall e :: e in place ==> Filled(e))
      && (forall k :: k in holder ==> holder[k] in place && holder[k].key == k && Full(k))
      && Hints()
    }

    ghost predicate Hints()
      reads this`place, lastUsed
    {
      forall b :: 0 <= b < lastUsed.Length && lastUsed[b] != null ==> lastUsed[b] in place
    }

    /** The table as a map. */
    ghost function Contents(): map<Key, Row>
      requires Valid()
      reads this`chains, this`place, this`holder, lastUsed, place.Keys
    {
      map k | k in holder :: holder[k].row
    }

    ghost function Tail(b: nat): Elem
      requires b < |chains| && chains[b] != []
      reads this`chains
    {
      chains[b][|chains[b]| - 1]
    }

    /** What a new key finds in the free slot `e`. */
    static ghost function FreeRoom(e: Elem): (r: Room)
      reads e`key
      ensures !r.NoRoom?
    {
      if Full(e.key) then Takes(e.key) else Blank
    }

    /** What a new key finds: a free slot at the end of its chain, or memory for one more element, or nothing. */
    ghost function RoomFor(k: Key, granted: bool): Room
      requires Valid()
      reads this, lastUsed, place.Keys
    {
      var tail := Tail(Pos(k));
      if !tail.Used() then FreeRoom(tail)
      else if !noMoreSpace && (spaceLeft >= elemSize || granted) then Blank
      else NoRoom
    }

    constructor (heads: seq<Elem>, hash: Key -> nat, elemSize: nat, poolSize: nat)
      requires heads != [] && 0 < elemSize <= poolSize
      requires forall i :: 0 <= i < |heads| ==>
        heads[i].key == EMPTY && heads[i].row == Zero && heads[i].signature == 0 && heads[i].next == null
      requires forall i, j :: 0 <= i < j < |heads| ==> heads[i] != heads[j]
      ensures Valid() && Contents() == map[] && fresh(lastUsed) && Made([]) && !noMoreSpace
      ensures this.heads == heads && this.hash == hash && place.Keys == set e | e in heads
    {
      this.heads, this.hash, this.elemSize, this.poolSize := heads, hash, elemSize, poolSize;
      lastUsed := new Elem?[|heads|](_ => null);
      spaceLeft, noMoreSpace := poolSize, false;
      chains := seq(|heads|, i requires 0 <= i < |heads| => [heads[i]]);
      place := map e | e in heads :: Place(HeadAt(heads, e), 0);
      holder := map[];
      NoInsertions();
      new;
      hide Possible, AllStored, Table;
      forall e | e in place ensures Sits(e) && Filled(e) {
        assert chains[place[e].bucket] == [e];
      }
      hide Sits, Filled, HeadAt;
    }

    static ghost function HeadAt(heads: seq<Elem>, e: Elem): (i: nat)
      requires e in heads
      ensures i < |heads| && heads[i] == e
    {
      var i :| 0 <= i < |heads| && heads[i] == e;
      i
    }

    /** Comparing an element of the table with a full key, signature first, tells whether it holds that key. */
    lemma HitIsHolder(e: Elem, key: Key)
      requires Valid() && e in place && Full(key)
      ensures e.signature == hash(key) && Matches(e.key, key) <==> key in holder && holder[key] == e
    {
      assert Filled(e);
      FullMatchIsEquality(e.key, key);
    }

    lemma Ends(e: Elem)
      requires Valid() && e in place && e.next == null
      ensures var p := place[e]; p.bucket < |chains| && p.index + 1 == |chains[p.bucket]| && chains[p.bucket][p.index] == e
    {
      assert Sits(e);
    }

    lemma Link(b: nat, i: nat)
      requires Linked() && b < |chains| && i < |chains[b]|
      ensures var e := chains[b][i]; e in place && place[e] == Place(b, i) && e.next == NextIn(chains[b], i)
    {
      assert Sits(chains[b][i]);
    }

    /** A key is held in its own chain. */
    lemma HolderPlace(key: Key)
      requires Valid() && key in holder
      ensures var e := holder[key];
        && e in place && place[e].bucket == Pos(key) < |chains| && place[e].index < |chains[Pos(key)]|
        && chains[Pos(key)][place[e].index] == e && e.key == key
    {
      assert Filled(holder[key]) && Sits(holder[key]);
    }

    /** search_accounting_structure: finds the element of a key, if there is one. */
    method Search(key: Key) returns (found: Elem?)
      requires Valid() && Full(key)
      ensures found != null <==> key in Contents()
      ensures found != null ==> found in place && found.key == key && found.row == Contents()[key]
      ensures found != null ==> key in holder && holder[key] == found
    {
      hide Filled, Linked, Matches, Pos;
      var pos := Pos(key);
      ValidLinked();
      Starts(pos);
      if key in holder {
        HolderPlace(key);
      }
      var e: Elem? := heads[pos];
      ghost var i := 0;
      while e != null
        invariant i <= |chains[pos]| && e == if i < |chains[pos]| then chains[pos][i] else null
        invariant key in holder ==> place[holder[key]].index >= i
        decreases |chains[pos]| - i
      {
        Link(pos, i);
        HitIsHolder(e, key);
        if e.signature == hash(key) && Matches(e.key, key) {
          return e;
        }
        e := e.next;
        i := i + 1;
      }
      return null;
    }

    /** The walk goes on behind `e`. */
    predicate Passes(e: Elem, key: Key)
      reads e
    {
      !(e.signature == hash(key) && Matches(e.key, key)) && e.Used() && e.next != null
    }

    /** The chain walk of an insertion: to the first element that matches, is free, or is the last. */
    method Walk(key: Key) returns (e: Elem, ghost i: nat)
      requires heads != [] && Linked()
      ensures Pos(key) < |chains| && i < |chains[Pos(key)]| && e == chains[Pos(key)][i] && !Passes(e, key)
      ensures forall j :: 0 <= j < i ==> Passes(chains[Pos(key)][j], key)
    {
      hide Matches, Pos, Linked;
      var pos := Pos(key);
      Starts(pos);
      e, i := heads[pos], 0;
      Link(pos, 0);
      while !(e.signature == hash(key) && Matches(e.key, key)) && e.Used() && e.next != null
        invariant i < |chains[pos]| && e == chains[pos][i] && e.next == NextIn(chains[pos], i)
        invariant forall j :: 0 <= j < i ==> Passes(chains[pos][j], key)
        decreases |chains[pos]| - i
      {
        Link(pos, i + 1);
        e := e.next;
        i := i + 1;
      }
    }

    lemma Free(e: Elem, key: Key)
      requires !e.Used()
      ensures !Passes(e, key)
    {
    }

    /** In a well-formed table that is the key's element, or else the last of its chain. */
    lemma Walked(key: Key, i: nat)
      requires Valid() && Full(key) && Pos(key) < |chains| && i < |chains[Pos(key)]| && !Passes(chains[Pos(key)][i], key)
      requires forall j :: 0 <= j < i ==> Passes(chains[Pos(key)][j], key)
      ensures var e := chains[Pos(key)][i];
        e in place && place[e].bucket == Pos(key) && if key in holder then e == holder[key] else e.next == null
    {
      hide Filled, Linked, Matches, Pos, Valid;
      ValidLinked();
      var pos := Pos(key);
      var e := chains[pos][i];
      Link(pos, i);
      HitIsHolder(e, key);
      if !e.Used() {
        FreeIsLast(e);
      }
      if key in holder {
        HolderPlace(key);
        var k := place[holder[key]].index;
        Link(pos, k);
        HitIsHolder(holder[key], key);
        assert !Passes(chains[pos][k], key);
      }
    }

    lemma ValidLinked()
      requires Valid()
      ensures heads != [] && Linked()
    {
    }

    lemma Starts(b: nat)
      requires Linked() && b < |heads|
      ensures |chains| == |heads| && chains[b] != [] && chains[b][0] == heads[b]
    {
    }

    /** A free slot is the last of its chain: blank and alone there, or a row without packets and bytes. */
    lemma FreeIsLast(e: Elem)
      requires Valid() && e in place && !e.Used()
      ensures e.next == null
      ensures if Full(e.key) then e.key in holder && holder[e.key] == e else e.row.(reset := false) == Zero && e.key !in holder
    {
      assert Filled(e) && Sits(e);
    }

    /** The last element of a chain, and the room that it offers. */
    lemma LastIsTail(e: Elem, key: Key, granted: bool)
      requires Valid() && e in place && e.next == null && place[e].bucket == Pos(key)
      ensures RoomFor(key, granted) == if !e.Used() then FreeRoom(e)
                                       else if !noMoreSpace && (spaceLeft >= elemSize || granted) then Blank else NoRoom
    {
      Ends(e);
    }

    /** Only a record without packets and bytes after a reset request leaves a free slot in mid-chain. */
    predicate Harms(e: Elem, x: Record)
      reads e`row, e`next
    {
      !x.Counts() && e.row.reset && e.next != null
    }

    /** Adding a record to the element of its key. */
    method Bump(e: Elem, x: Record)
      requires Valid() && x.key in holder && holder[x.key] == e
      modifies e`row
      ensures e.row == Bumped(old(e.row), x) && (Valid() <==> !old(Harms(e, x)))
      ensures Valid() ==> Contents() == old(Contents())[x.key := Bumped(old(e.row), x)]
    {
      hide Linked, Or, Filled, Valid, Contents;
      HolderPlace(x.key);
      KeyIsFull(e);
      var row := if e.row.reset then ResetCounters(e.row) else e.row;
      e.row := row.(packets := row.packets + x.packets, flows := row.flows + x.flows, bytes := row.bytes + x.bytes,
                    tcp := Or(row.tcp, x.tcp), tunnelTcp := Or(row.tunnelTcp, x.tunnelTcp), flowType := x.flowType);
      assert e.row == Bumped(old(e.row), x);
      if old(Harms(e, x)) {
        HollowInside(e);
        Unfilled(e);
      } else {
        OneRow(e);
      }
    }

    lemma HollowInside(e: Elem)
      requires heads != [] && Full(e.key) && !e.Used() && e.next != null
      ensures !Filled(e)
    {
    }

    lemma Unfilled(e: Elem)
      requires heads != [] && e in place && !Filled(e)
      ensures !Valid()
    {
    }

    lemma KeyIsFull(e: Elem)
      requires Valid() && e in place && e.key in holder && holder[e.key] == e
      ensures Full(e.key) && (e.Used() || e.next == null)
    {
      assert Filled(e);
    }

    /** set_reset_flag */
    method SetResetFlag(e: Elem)
      requires Valid() && e in place && e.key in holder && holder[e.key] == e
      modifies e`row
      ensures Valid() && Contents() == old(Contents())[e.key := old(e.row).(reset := true)]
    {
      hide Linked, Filled, Valid, Contents;
      KeyIsFull(e);
      e.row := e.row.(reset := true);
      OneRow(e);
    }

    twostate lemma Owner(e: Elem)
      requires old(Valid()) && e in old(place)
      ensures old(Filled(e))
      ensures if old(Full(e.key)) then old(e.key in holder && holder[e.key] == e && (e.Used() || e.next == null))
              else old(place)[e].bucket < |old(chains)| && old(chains)[old(place)[e].bucket] == [e]
    {
      assert old(Filled(e));
    }

    twostate lemma StillFilled(e: Elem)
      requires heads != [] && old(Filled(e)) && e in place && place[e] == old(place)[e] && unchanged(e`key, e`signature)
      requires Full(e.key) ==> (e.Used() || e.next == null) && e.key in holder && holder[e.key] == e
      requires !Full(e.key) ==> unchanged(e`row) && place[e].bucket < |chains| && chains[place[e].bucket] == old(chains)[place[e].bucket]
      ensures Filled(e)
    {
    }

    /** Only the row of `e` has changed. */
    twostate lemma OneRow(e: Elem)
      requires old(Valid()) && unchanged(this, lastUsed) && e in place && Full(e.key) && (e.Used() || e.next == null)
      requires unchanged(e`key, e`signature, e`next) && forall f :: f in place && f != e ==> unchanged(f)
      ensures Valid() && Contents() == old(Contents())[e.key := e.row]
    {
      hide Linked, Filled;
      forall f | f in place ensures Filled(f) {
        Owner(f);
        StillFilled(f);
      }
      Owner(e);
    }

    /** A new key in a free slot; the flow counter and the flags of the row that was there are kept. */
    method Fill(e: Elem, x: Record)
      requires Valid() && e in place && !e.Used() && place[e].bucket == Pos(x.key)
      requires Full(x.key) && x.key !in holder
      modifies e`key, e`row, e`signature, this`holder
      ensures Valid() && Contents() == Inserted(old(Contents()), x, old(FreeRoom(e)))
    {
      hide Linked, Or, Filled, Valid, Contents, Pos, Added;
      FreeIsLast(e);
      Holds(x.key);
      Holds(e.key);
      holder := holder - {e.key};
      Overwrite(e, x);
      holder := holder[x.key := e];
      NewRow(e);
    }

    method Overwrite(e: Elem, x: Record)
      modifies e`key, e`row, e`signature
      ensures e.key == x.key && e.signature == hash(x.key) && e.row == Added(old(e.row).(reset := false), x)
    {
      if e.row.reset {
        e.row := e.row.(reset := false);
      }
      e.key := x.key;
      e.row := Added(e.row, x);
      e.signature := hash(x.key);
    }

    lemma IsFilled(e: Elem)
      requires heads != [] && e in place && (e.Used() || e.next == null) && Full(e.key) && e.signature == hash(e.key)
      requires place[e].bucket == Pos(e.key) && e.key in holder && holder[e.key] == e
      ensures Filled(e)
    {
    }

    /** One free slot has been given a key that was not there. */
    twostate lemma NewRow(e: Elem)
      requires old(Valid()) && e in place && unchanged(this`chains, this`place, this`noMoreSpace, this`spaceLeft, lastUsed, e`next)
      requires e.next == null && Full(e.key) && e.signature == hash(e.key) && place[e].bucket == Pos(e.key)
      requires e.key !in old(holder) && holder == (old(holder) - {old(e.key)})[e.key := e]
      requires old(e.key) in old(holder) ==> old(holder)[old(e.key)] == e
      requires forall f :: f in place && f != e ==> unchanged(f)
      ensures Valid() && Contents() == (old(Contents()) - {old(e.key)})[e.key := e.row]
    {
      hide Linked, Filled, Pos;
      forall f | f in place ensures Filled(f) {
        if f == e {
          IsFilled(e);
        } else {
          Owner(f);
          OtherKey(e, f);
          StillFilled(f);
        }
      }
      forall k | k in old(holder) && k != old(e.key) ensures k in holder && holder[k] == old(holder)[k] && old(holder)[k] != e {
        assert old(holder[k].key) == k;
      }
    }

    twostate lemma OtherKey(e: Elem, new f: Elem)
      requires old(Valid()) && e in old(place) && f in old(place) && f != e
      requires old(e.key) in old(holder) ==> old(holder)[old(e.key)] == e
      ensures f.key in old(holder) && old(holder)[f.key] == f ==> f.key != old(e.key)
    {
    }

    /** An element from the pool, or from a new pool if one is granted; the first failure is remembered. */
    method Allocate(granted: bool) returns (e: Elem?)
      requires 0 < elemSize <= poolSize
      modifies this`spaceLeft, this`noMoreSpace
      ensures e != null <==> old(!noMoreSpace && (spaceLeft >= elemSize || granted))
      ensures e != null ==> fresh(e) && e.row == Zero
      ensures noMoreSpace <==> e == null
      ensures spaceLeft == if e == null then old(spaceLeft)
                           else if old(spaceLeft) >= elemSize then old(spaceLeft) - elemSize else poolSize - elemSize
    {
      if noMoreSpace {
        return null;
      }
      if spaceLeft >= elemSize {
        spaceLeft := spaceLeft - elemSize;
      } else if granted {
        spaceLeft := poolSize - elemSize;
      } else {
        noMoreSpace := true;
        return null;
      }
      e := new Elem();
    }

    /** A new key in a new element at the end of its chain. */
    method Append(last: Elem, e: Elem, x: Record)
      requires Valid() && last in place && last.next == null && last.Used() && place[last].bucket == Pos(x.key)
      requires Full(x.key) && x.key !in holder && e !in place && e.row == Zero
      modifies last`next, e, this`chains, this`place, this`holder
      ensures Valid() && Contents() == old(Contents())[x.key := Added(Zero, x)]
      ensures place.Keys == old(place.Keys) + {e}
    {
      hide Linked, Filled, Valid, Contents, Pos, Or, Sits;
      Ends(last);
      last.next := e;
      e.key := x.key;
      e.row := Added(e.row, x);
      e.signature := hash(x.key);
      e.next := null;
      ghost var b := Pos(x.key);
      place := place[e := Place(b, |chains[b]|)];
      chains := chains[b := chains[b] + [e]];
      holder := holder[x.key := e];
      Grown(last, e);
    }

    /** A new element has been linked behind the last one of its chain. */
    twostate predicate Linking(last: Elem, new e: Elem)
      reads this, last, e
      requires last in old(place)
    {
      var b := old(place)[last].bucket;
      && e !in old(place) && last.next == e && e.next == null && b < |old(chains)|
      && chains == old(chains)[b := old(chains)[b] + [e]]
      && place == old(place)[e := Place(b, |old(chains)[b]|)]
    }

    twostate lemma LinkedGrown(last: Elem, new e: Elem)
      requires old(Linked()) && last in old(place) && old(last.next) == null && Linking(last, e)
      requires forall f :: f in old(place) && f != last ==> unchanged(f`next)
      ensures Linked()
    {
      var b := old(place)[last].bucket;
      forall f | f in place ensures Sits(f) {
        if f in old(place) {
          StillSits(last, f, e);
        }
      }
    }

    twostate lemma StillSits(last: Elem, new f: Elem, new e: Elem)
      requires last in old(place) && f in old(place) && f in place && old(Sits(last)) && old(Sits(f))
      requires old(last.next) == null && Linking(last, e) && (f != last ==> unchanged(f`next))
      ensures Sits(f)
    {
    }

    twostate lemma Grown(last: Elem, new e: Elem)
      requires old(Valid()) && last in old(place) && old(last.next == null && last.Used()) && Linking(last, e)
      requires unchanged(lastUsed, last`key, last`row, last`signature) && forall f :: f in old(place) && f != last ==> unchanged(f)
      requires Full(e.key) && e.signature == hash(e.key) && old(place)[last].bucket == Pos(e.key)
      requires e.key !in old(holder) && holder == old(holder)[e.key := e]
      ensures Valid() && Contents() == old(Contents())[e.key := e.row]
    {
      hide Linked, Filled, Pos;
      LinkedGrown(last, e);
      forall f | f in place ensures Filled(f) {
        GrownFilled(last, f, e);
      }
    }

    twostate lemma GrownFilled(last: Elem, new f: Elem, new e: Elem)
      requires old(Valid()) && last in old(place) && old(last.Used()) && last.Used() && Linking(last, e)
      requires f in place && (f != e ==> unchanged(f`key, f`row, f`signature) && (f != last ==> unchanged(f`next)))
      requires Full(e.key) && e.signature == hash(e.key) && old(place)[last].bucket == Pos(e.key)
      requires e.key !in old(holder) && holder == old(holder)[e.key := e]
      ensures Filled(f)
    {
      hide Pos, Linked, Matches;
      if f != e {
        assert old(Filled(f));
        InItsChain(last);
      }
    }

    twostate lemma InItsChain(e: Elem)
      requires old(Valid()) && e in old(place)
      ensures var p := old(place)[e]; p.bucket < |old(chains)| && e in old(chains)[p.bucket]
    {
      assert old(Sits(e));
    }

    /** The last used element of a bucket. */
    method Remember(pos: nat, e: Elem)
      requires pos < lastUsed.Length && Hints() && e in place
      modifies lastUsed
      ensures lastUsed[pos] == e && Hints() && Valid() == old(Valid()) && (Valid() ==> Contents() == old(Contents()))
    {
      hide Linked, Filled;
      lastUsed[pos] := e;
    }

    lemma Hint(key: Key)
      requires Valid()
      ensures 0 < elemSize <= poolSize && Hints()
      ensures Pos(key) < lastUsed.Length && (lastUsed[Pos(key)] != null ==> lastUsed[Pos(key)] in place)
    {
    }

    lemma Holds(key: Key)
      requires Valid()
      ensures key in Contents() <==> key in holder
      ensures key in holder ==> holder[key] in place && holder[key].key == key && Contents()[key] == holder[key].row
    {
    }

    /** In an empty table every slot is blank. */
    lemma EmptyRoom(key: Key, granted: bool)
      requires Valid() && Contents() == map[]
      ensures RoomFor(key, granted) == Blank
    {
      ValidLinked();
      Starts(Pos(key));
      var last := |chains[Pos(key)]| - 1;
      Link(Pos(key), last);
      Holds(Tail(Pos(key)).key);
      assert Filled(Tail(Pos(key)));
    }

    /** A row without packets and bytes is what the next new key of its chain takes over. */
    lemma HollowRoom(k: Key, key: Key, granted: bool)
      requires Valid() && k in Contents() && Hollow(Contents()[k]) && Pos(k) == Pos(key)
      ensures RoomFor(key, granted) == Takes(k)
    {
      Holds(k);
      HolderPlace(k);
      KeyIsFull(holder[k]);
      LastIsTail(holder[k], key, granted);
    }

    /** The room is nowhere, a blank element, or a row without packets and bytes; not nowhere while there is memory. */
    lemma RoomFits(x: Record, granted: bool)
      requires Valid()
      ensures Fits(Contents(), Insertion(x, RoomFor(x.key, granted)))
      ensures Pos(x.key) < |chains| && chains[Pos(x.key)] != []
      ensures RoomFor(x.key, granted).NoRoom? <==> Tail(Pos(x.key)).Used() && (noMoreSpace || (spaceLeft < elemSize && !granted))
    {
      var b := Pos(x.key);
      ValidLinked();
      Starts(b);
      Link(b, |chains[b]| - 1);
      var tail := Tail(b);
      if !tail.Used() {
        FreeIsLast(tail);
        Holds(tail.key);
      }
    }

    /** What follows an element holds a key, in the same chain. */
    lemma NextHolds(e: Elem)
      requires Valid() && e in place && e.next != null
      ensures e.next in place && e.next.key in holder && holder[e.next.key] == e.next && Full(e.next.key)
      ensures e.key in holder && holder[e.key] == e ==> Further(e.key, e.next.key)
    {
      assert Sits(e) && Filled(e);
      var p := place[e];
      assert chains[p.bucket][p.index + 1] == e.next && Filled(e.next);
    }

    /** With one chain only, every other element is before the last one. */
    lemma BeforeLast(e: Elem, last: Elem)
      requires Valid() && |heads| == 1 && e in place && last in place && e != last && last.next == null
      ensures e.next != null
    {
      assert Sits(e) && Sits(last);
    }

    /** A record that leaves packets or bytes in its row, or is the last of its chain: the rest of the chain stays in reach. */
    ghost predicate Harmless(x: Record)
      requires Valid()
      reads this`chains, this`place, this`holder, lastUsed, place.Keys
    {
      x.key in holder ==> !Harms(holder[x.key], x)
    }

    /** The elements are those that there were, but for the row of `e` and the last-used pointers. */
    twostate predicate OnlyBumped(e: Elem, x: Record)
      reads this, place.Keys
      requires e in old(place)
    {
      && unchanged(this) && e.row == Bumped(old(e.row), x) && unchanged(e`key, e`signature, e`next)
      && forall f :: f in place && f != e ==> unchanged(f)
    }

    /**
     * insert_accounting_structure: the shortcut first, then the chain.  The table stays well formed if and only if the
     * record is harmless.
     */
    method Insert(x: Record, granted: bool)
      requires Valid() && Full(x.key)
      modifies this`spaceLeft, this`noMoreSpace, this`chains, this`place, this`holder, lastUsed, place.Keys
      ensures Valid() <==> old(Harmless(x))
      ensures Valid() ==> Contents() == Inserted(old(Contents()), x, old(RoomFor(x.key, granted)))
      ensures Valid() ==> noMoreSpace == (old(noMoreSpace) || (x.key !in old(Contents()) && old(RoomFor(x.key, granted)).NoRoom?))
      ensures !Valid() ==> x.key in old(holder) && old(holder)[x.key] in old(place) && OnlyBumped(old(holder)[x.key], x)
      ensures !Valid() ==> Linked() && Hints() && Pos(x.key) < lastUsed.Length && lastUsed[Pos(x.key)] == old(holder)[x.key]
      ensures fresh(place.Keys - old(place.Keys))
    {
      hide Linked, Filled, Valid, Contents, Pos, Or, Matches, Added, Bumped, RoomFor, FreeRoom;
      Hint(x.key);
      Holds(x.key);
      ValidLinked();
      var pos := Pos(x.key);
      var hint := lastUsed[pos];
      if hint != null && hint.signature == hash(x.key) && Matches(hint.key, x.key) {
        HitIsHolder(hint, x.key);
        Bump(hint, x);
        return;
      }
      var e, i := Walk(x.key);
      Walked(x.key, i);
      HitIsHolder(e, x.key);
      if e.signature == hash(x.key) && Matches(e.key, x.key) {
        Bump(e, x);
        Remember(pos, e);
      } else if !e.Used() {
        LastIsTail(e, x.key, granted);
        Fill(e, x);
        Remember(pos, e);
      } else {
        LastIsTail(e, x.key, granted);
        Extend(e, x, granted);
      }
    }

    /** Handling a collision at the end of the chain, if there is memory for one more element. */
    method Extend(last: Elem, x: Record, granted: bool)
      requires Valid() && last in place && last.next == null && last.Used() && place[last].bucket == Pos(x.key)
      requires Full(x.key) && x.key !in holder
      modifies this`spaceLeft, this`noMoreSpace, this`chains, this`place, this`holder, lastUsed, last`next
      ensures Valid() && fresh(place.Keys - old(place.Keys)) && Hints()
      ensures
        var stored := old(!noMoreSpace && (spaceLeft >= elemSize || granted));
        && Contents() == (if stored then old(Contents())[x.key := Added(Zero, x)] else old(Contents()))
        && noMoreSpace == !stored
    {
      hide Linked, Filled, Valid, Contents, Pos, Or, Added;
      Hint(x.key);
      var more := Allocate(granted);
      if more != null {
        Append(last, more, x);
        Hint(x.key);
        Remember(Pos(x.key), more);
      }
    }

    /** Key `k` is in the chain of key `j`, behind it. */
    ghost predicate Further(j: Key, k: Key)
      requires Valid()
      reads this`chains, this`place, this`holder, lastUsed, place.Keys
    {
      && j in holder && k in holder && Pos(j) == Pos(k)
      && holder[j] in place && holder[k] in place && place[holder[j]].index < place[holder[k]].index
    }

    /** A record that is not harmless has such a key. */
    lemma HarmReaches(x: Record)
      requires Valid() && !Harmless(x)
      ensures exists k :: Full(k) && Further(x.key, k)
    {
      HolderPlace(x.key);
      NextHolds(holder[x.key]);
    }

    /** A walk for that key passes everything up to the other one's element, and that one, too, unless it is free. */
    lemma Ahead(j: Key, k: Key)
      requires Valid() && Further(j, k)
      ensures j in holder && k in holder && Pos(j) == Pos(k) && holder[j] in place && holder[k] in place
      ensures holder[j].key == j && Full(j) && Full(k) && j != k && holder[j] != holder[k] && holder[k].key == k
      ensures var e := holder[j];
        && e in place && place[e].bucket == Pos(k) < |chains| && place[e].index < |chains[Pos(k)]|
        && chains[Pos(k)][place[e].index] == e
        && forall i :: 0 <= i < place[e].index ==> Passes(chains[Pos(k)][i], k) && chains[Pos(k)][i] != e
    {
      hide Filled, Linked, Matches, Pos, Valid;
      ValidLinked();
      HolderPlace(j);
      HolderPlace(k);
      KeyIsFull(holder[j]);
      KeyIsFull(holder[k]);
      var chain := chains[Pos(k)];
      forall i | 0 <= i < place[holder[j]].index ensures Passes(chain[i], k) && chain[i] != holder[j] {
        Link(Pos(k), i);
        HitIsHolder(chain[i], k);
        if !chain[i].Used() {
          FreeIsLast(chain[i]);
        }
      }
    }

    /** No reset request is pending. */
    ghost predicate NonePending()
      requires Valid()
      reads this`chains, this`place, this`holder, lastUsed, place.Keys
    {
      forall k :: k in Contents() ==> !Contents()[k].reset
    }

    lemma NonePendingHarmless(x: Record)
      requires Valid() && (x.Counts() || NonePending())
      ensures Harmless(x)
    {
      Holds(x.key);
    }

    /** sum_host_insert: the record is overwritten between the two insertions. */
    method SumHostInsert(x: Record, granted: bool, grantedAgain: bool) returns (ghost room: Room, ghost roomAgain: Room)
      requires Valid() && Full(x.key) && (x.Counts() || NonePending())
      modifies this`spaceLeft, this`noMoreSpace, this`chains, this`place, this`holder, lastUsed, place.Keys
      ensures Valid() && fresh(place.Keys - old(place.Keys)) && room == old(RoomFor(Source(x).key, granted))
      ensures
        var t := old(Contents());
        var one, two := Insertion(Source(x), room), Insertion(Destination(x), roomAgain);
        var between := Inserted(t, one.x, room);
        && Fits(t, one) && Fits(between, two) && Contents() == Inserted(between, two.x, roomAgain)
        && noMoreSpace == (old(noMoreSpace) || !Stored(t, one) || !Stored(between, two))
    {
      hide Valid, Contents, RoomFor, Or, Added;
      RoomFits(Source(x), granted);
      room := RoomFor(Source(x).key, granted);
      var data := x;
      var tmp := data.key.prims.dst;
      data := data.(key := data.key.(prims := data.key.prims.(dst := 0)));
      NonePendingHarmless(data);
      ghost var t := Contents();
      Insert(data, granted);
      if !x.Counts() {
        InsertedPendsNothing(t, Source(x), room);
      }
      data := data.(key := data.key.(prims := data.key.prims.(src := tmp)));
      assert data == Destination(x);
      NonePendingHarmless(data);
      RoomFits(data, grantedAgain);
      roomAgain := RoomFor(data.key, grantedAgain);
      Insert(data, grantedAgain);
    }

    // ----- runs

    /** The table is what the insertions `ins` make of an empty one, and it has run out of memory if one was dropped. */
    ghost predicate Made(ins: seq<Insertion>)
      reads this`noMoreSpace, this`chains, this`place, this`holder, lastUsed, place.Keys
    {
      Valid() && Possible(ins) && Contents() == Table(ins) && (noMoreSpace <==> !AllStored(ins))
    }

    lemma MadePendsNothing(ins: seq<Insertion>)
      requires Made(ins)
      ensures NonePending()
    {
      NoRowIsReset(ins);
    }

    /** Any sequence of records through the table; `granted` says whether the i-th one would get memory. */
    method Process(xs: seq<Record>, granted: nat -> bool, ghost before: seq<Insertion>) returns (ghost ins: seq<Insertion>)
      requires Made(before) && forall i :: 0 <= i < |xs| ==> Full(xs[i].key)
      modifies this`spaceLeft, this`noMoreSpace, this`chains, this`place, this`holder, lastUsed, place.Keys
      ensures Made(before + ins) && fresh(place.Keys - old(place.Keys))
      ensures |ins| == |xs| && forall i :: 0 <= i < |xs| ==> ins[i].x == xs[i]
      ensures forall c :: Total(Contents(), c) + Dropped(before + ins, c) == Input(before + ins, c)
      ensures before == [] && !noMoreSpace && NoneOverwrites(ins) ==> SumsUp(Contents(), xs)
      ensures before == [] && (forall i :: 0 <= i < |xs| ==> xs[i].Counts()) ==> NoneOverwrites(ins)
    {
      hide Valid, Contents, RoomFor, Inserted, Table, Possible, AllStored, Fits, SumsUp, NoneOverwrites;
      ins := [];
      assert before + [] == before;
      for n := 0 to |xs|
        invariant Made(before + ins) && fresh(place.Keys - old(place.Keys))
        invariant |ins| == n && forall i :: 0 <= i < n ==> ins[i].x == xs[i]
      {
        ghost var i := Insertion(xs[n], RoomFor(xs[n].key, granted(n)));
        MadePendsNothing(before + ins);
        NonePendingHarmless(xs[n]);
        RoomFits(xs[n], granted(n));
        PossibleNext(before + ins, i);
        Insert(xs[n], granted(n));
        assert before + (ins + [i]) == before + ins + [i];
        ins := ins + [i];
      }
      forall c ensures Total(Contents(), c) + Dropped(before + ins, c) == Input(before + ins, c) {
        CountersConserved(before + ins, c);
      }
      if before == [] {
        assert before + ins == ins;
        Sums(ins, xs);
      }
    }

    lemma Sums(ins: seq<Insertion>, xs: seq<Record>)
      requires Made(ins) && |ins| == |xs| && forall i :: 0 <= i < |ins| ==> ins[i].x == xs[i]
      ensures !noMoreSpace && NoneOverwrites(ins) ==> SumsUp(Contents(), xs)
      ensures (forall i :: 0 <= i < |xs| ==> xs[i].Counts()) ==> NoneOverwrites(ins)
    {
      hide Valid, Contents, Table, Possible, AllStored, NoneOverwrites, SumsUp;
      if !noMoreSpace && NoneOverwrites(ins) {
        TableIsSums(ins, xs);
      }
      if forall i :: 0 <= i < |xs| ==> xs[i].Counts() {
        CountingRun(ins, ins);
      }
    }

    /**
     * Any sequence of records through an empty table, per host.  If none is dropped the totals are doubled, and if no row
     * is taken over, as is so if every record counts, the table is what `PerHost` says.
     */
    method ProcessHosts(xs: seq<Record>, granted: nat -> bool) returns (ghost ins: seq<Insertion>)
      requires Made([]) && forall i :: 0 <= i < |xs| ==> Full(xs[i].key)
      modifies this`spaceLeft, this`noMoreSpace, this`chains, this`place, this`holder, lastUsed, place.Keys
      ensures Made(ins) && fresh(place.Keys - old(place.Keys)) && SameRecords(ins, PerHost(xs))
      ensures !noMoreSpace ==> forall c :: Total(Contents(), c) == 2 * Sum(xs, c)
      ensures !noMoreSpace && NoneOverwrites(ins) ==>
        Contents() == Table(PerHost(xs)) && forall k, c :: At(Contents(), k, c) == Traffic(xs, k, c)
      ensures (forall i :: 0 <= i < |xs| ==> xs[i].Counts()) ==> NoneOverwrites(ins)
    {
      hide Valid, Contents, RoomFor, Inserted, Table, Possible, AllStored, Fits, Stored, SameRecords, NoneOverwrites, PerHost, Sum, Total;
      hide At, Traffic;
      ins := [];
      NoHosts(xs);
      for n := 0 to |xs|
        invariant Made(ins) && fresh(place.Keys - old(place.Keys)) && SameRecords(ins, PerHost(xs[..n]))
      {
        MadePendsNothing(ins);
        ghost var room, roomAgain := SumHostInsert(xs[n], granted(2 * n), granted(2 * n + 1));
        ghost var one, two := Insertion(Source(xs[n]), room), Insertion(Destination(xs[n]), roomAgain);
        PossibleNext(ins, one);
        PossibleNext(ins + [one], two);
        HostsNext(ins, xs, n, room, roomAgain);
        ins := ins + [one] + [two];
      }
      assert xs[..|xs|] == xs;
      if forall i :: 0 <= i < |xs| ==> xs[i].Counts() {
        HostsCount(xs);
        CountingRun(ins, PerHost(xs));
      }
      if !noMoreSpace {
        HostsStored(ins, xs);
      }
    }

    // ----- freeing what hangs off the elements

    static function Bare(k: Key): Key {
      Key(k.prims, None, None, None, None, None, None, None)
    }

    /** No sub-record is left; the primitives are. */
    static predicate Stripped(k: Key, before: Key) {
      && k.bgp == None && k.lbgp == None && k.xlate == None && k.mpls == None
      && k.tunnel == None && k.custom == None && k.vlen == None && k.prims == before.prims
    }

    static predicate Before(p: Place, at: Place) {
      p.bucket < at.bucket || (p.bucket == at.bucket && p.index < at.index)
    }

    /** All elements, chain by chain. */
    static ghost function Flatten(cs: seq<seq<Elem>>): seq<Elem> {
      if cs == [] then [] else Flatten(cs[..|cs| - 1]) + cs[|cs| - 1]
    }

    /** At an element, or past the last chain. */
    static ghost predicate Within(cs: seq<seq<Elem>>, at: Place) {
      if at.bucket < |cs| then at.index < |cs[at.bucket]| else at == Place(|cs|, 0)
    }

    static ghost function After(cs: seq<seq<Elem>>, at: Place): Place
      requires Within(cs, at) && at.bucket < |cs|
    {
      if at.index + 1 < |cs[at.bucket]| then Place(at.bucket, at.index + 1) else Place(at.bucket + 1, 0)
    }

    /** The elements before a place. */
    static ghost function UpTo(cs: seq<seq<Elem>>, at: Place): seq<Elem>
      requires Within(cs, at)
    {
      Flatten(cs[..at.bucket]) + if at.bucket < |cs| then cs[at.bucket][..at.index] else []
    }

    static lemma UpToAfter(cs: seq<seq<Elem>>, at: Place)
      requires Within(cs, at) && at.bucket < |cs| && Within(cs, After(cs, at))
      ensures UpTo(cs, After(cs, at)) == UpTo(cs, at) + [cs[at.bucket][at.index]]
    {
      assert cs[..at.bucket + 1][..at.bucket] == cs[..at.bucket];
    }

    /** `idx++` and `idx--` on an unsigned int. */
    static function Incremented(idx: nat): nat { (idx + 1) % 0x1_0000_0000 }

    static function Decremented(idx: nat): nat { (idx - 1) % 0x1_0000_0000 }

    static lemma WrapsBack(idx: nat)
      requires idx < 0x1_0000_0000
      ensures Incremented(Decremented(idx)) == idx && (idx < 0xffff_ffff ==> Incremented(idx) == idx + 1)
    {
    }

    lemma LinkOf(at: Place)
      requires Linked() && Within(chains, at) && at.bucket < |chains|
      ensures |chains| == |heads| && chains[at.bucket][0] == heads[at.bucket] && Within(chains, After(chains, at))
      ensures var e := chains[at.bucket][at.index];
        e in place && place[e] == at && e.next == NextIn(chains[at.bucket], at.index)
    {
      assert Sits(chains[at.bucket][at.index]);
    }

    lemma BeforeAfterOf(at: Place, f: Elem)
      requires Linked() && Within(chains, at) && at.bucket < |chains| && f in place
      ensures Before(place[f], After(chains, at)) <==> Before(place[f], at) || f == chains[at.bucket][at.index]
    {
      LinkOf(at);
      assert Sits(f);
      hide Linked;
    }

    lemma BeforeAfter(at: Place)
      requires Linked() && Within(chains, at) && at.bucket < |chains|
      ensures forall f :: f in place ==>
        (Before(place[f], After(chains, at)) <==> Before(place[f], at) || f == chains[at.bucket][at.index])
    {
      hide Linked, Before, After;
      forall f | f in place
        ensures Before(place[f], After(chains, at)) <==> Before(place[f], at) || f == chains[at.bucket][at.index]
      {
        BeforeAfterOf(at, f);
      }
    }

    ghost function Keys(): map<Elem, Key>
      reads this`place, place.Keys`key
    {
      map e | e in place :: e.key
    }

    /** Exactly the elements before a place have lost their sub-records. */
    ghost predicate FreedUpTo(keys: map<Elem, Key>, at: Place)
      reads this`place, place.Keys`key
    {
      forall f :: f in place ==> f in keys && f.key == if Before(place[f], at) then Bare(keys[f]) else keys[f]
    }

    lemma AtStart()
      requires Linked() && heads != []
      ensures |heads| == |chains| && Within(chains, Place(0, 0)) && UpTo(chains, Place(0, 0)) == []
      ensures FreedUpTo(Keys(), Place(0, 0))
    {
    }

    lemma AtEnd()
      requires Linked()
      ensures |heads| == |chains| && UpTo(chains, Place(|heads|, 0)) == Flatten(chains)
    {
      assert chains[..|chains|] == chains;
    }

    twostate lemma FreedAll()
      requires unchanged(this`place, this`chains) && Linked() && FreedUpTo(old(Keys()), Place(|heads|, 0))
      ensures forall e :: e in place ==> Stripped(e.key, old(e.key))
    {
      forall f | f in place ensures Sits(f) {}
    }

    method FreeElem(e: Elem, ghost keys: map<Elem, Key>, ghost at: Place)
      requires Linked() && Within(chains, at) && at.bucket < |chains| && e == chains[at.bucket][at.index]
      requires FreedUpTo(keys, at)
      modifies e`key
      ensures FreedUpTo(keys, After(chains, at))
      ensures Stripped(e.key, old(e.key))
    {
      LinkOf(at);
      BeforeAfter(at);
      hide Linked, Before, After;
      ghost var k := e.key;
      FreeSubRecords(e);
      assert e.key == Bare(k);
    }

    /** Each sub-record that there is. */
    method FreeSubRecords(e: Elem)
      modifies e`key
      ensures Stripped(e.key, old(e.key))
    {
      if e.key.bgp.Some? {
        e.key := e.key.(bgp := None);
      }
      if e.key.lbgp.Some? {
        e.key := e.key.(lbgp := None);
      }
      if e.key.xlate.Some? {
        e.key := e.key.(xlate := None);
      }
      if e.key.mpls.Some? {
        e.key := e.key.(mpls := None);
      }
      if e.key.tunnel.Some? {
        e.key := e.key.(tunnel := None);
      }
      if e.key.custom.Some? {
        e.key := e.key.(custom := None);
      }
      if e.key.vlen.Some? {
        e.key := e.key.(vlen := None);
      }
    }

    /** The loop's step: down the chain with the index held back, or on to the next bucket. */
    method Advance(e: Elem, elem: nat, index: nat, following: nat, ghost at: Place)
      returns (next: Elem, nextElem: nat, idx: nat, followingChain: nat)
      requires Linked() && Within(chains, at) && at.bucket == elem == index < |chains| < 0x1_0000_0000
      requires e == chains[elem][at.index]
      ensures nextElem == idx == After(chains, at).bucket && (followingChain == 0 <==> After(chains, at).index == 0)
      ensures followingChain != 0 ==> next == chains[elem][at.index + 1]
    {
      LinkOf(at);
      WrapsBack(index);
      hide Linked, Incremented, Decremented;
      next, nextElem, idx, followingChain := e, elem, index, following;
      if e.next != null {
        next := e.next;
        followingChain := followingChain + 1;
        idx := Decremented(idx);
      } else {
        nextElem := nextElem + 1;
        followingChain := 0;
      }
      idx := Incremented(idx);
    }

    /**
     * free_extra_allocs: inside a chain the 32-bit index is decremented, below zero in the first bucket, so that
     * the loop's increment brings it back.  Every element of every chain is visited once, in order.
     */
    method FreeExtraAllocs() returns (ghost visited: seq<Elem>)
      requires Linked() && 0 < |heads| < 0x1_0000_0000
      modifies place.Keys`key
      ensures visited == Flatten(chains)
      ensures forall e :: e in place ==>
        && e.key.bgp == None && e.key.lbgp == None && e.key.xlate == None && e.key.mpls == None
        && e.key.tunnel == None && e.key.custom == None && e.key.vlen == None && e.key.prims == old(e.key.prims)
    {
      hide Linked, Flatten, UpTo, FreedUpTo, Before, NextIn, Bare, Keys, Sits;
      AtStart();
      ghost var keys, at := Keys(), Place(0, 0);
      var elem := 0;                       // index of the bucket, where the source moves a pointer
      var idx, followingChain := 0, 0;
      var e := heads[0];
      visited := [];
      while idx < |heads|
        invariant Linked() && |heads| == |chains| && Within(chains, at)
        invariant idx == elem == at.bucket && (followingChain == 0 <==> at.index == 0)
        invariant followingChain != 0 ==> at.bucket < |chains| && at.index < |chains[elem]| && e == chains[elem][at.index]
        invariant visited == UpTo(chains, at) && FreedUpTo(keys, at)
        decreases |heads| - elem, if elem < |heads| then |chains[elem]| - at.index else 0
      {
        LinkOf(at);
        if followingChain == 0 {
          e := heads[elem];
        }
        UpToAfter(chains, at);
        visited := visited + [e];
        FreeElem(e, keys, at);
        e, elem, idx, followingChain := Advance(e, elem, idx, followingChain, at);
        at := After(chains, at);
      }
      AtEnd();
      FreedAll();
    }

    static lemma CountOne(c: seq<Elem>, i: nat)
      requires i < |c| && forall j :: 0 <= j < |c| && c[j] == c[i] ==> j == i
      ensures multiset(c)[c[i]] == 1
    {
      assert c == c[..i] + [c[i]] + c[i + 1..];
      assert c[i] !in c[..i] && c[i] !in c[i + 1..];
    }

    lemma CountInChain(b: nat, e: Elem)
      requires Linked() && b < |chains| && e in place
      ensures multiset(chains[b])[e] == if place[e].bucket == b then 1 else 0
    {
      assert Sits(e);
      var c, i := chains[b], place[e].index;
      assert forall j :: 0 <= j < |c| && c[j] == e ==> place[e] == Place(b, j);
      hide Linked, Sits;
      if place[e].bucket == b {
        CountOne(c, i);
      } else {
        assert e !in c;
      }
    }

    static lemma FlattenNext(cs: seq<seq<Elem>>, n: nat)
      requires n < |cs|
      ensures Flatten(cs[..n + 1]) == Flatten(cs[..n]) + cs[n]
    {
      assert cs[..n + 1][..n] == cs[..n];
    }

    /** The visit order holds every element of the table exactly once. */
    lemma {:induction false} EachOnce(n: nat, e: Elem)
      requires Linked() && n <= |chains| && e in place
      ensures multiset(Flatten(chains[..n]))[e] == if place[e].bucket < n then 1 else 0
      ensures n == |chains| ==> multiset(Flatten(chains))[e] == 1
    {
      assert Sits(e);
      assert chains[..|chains|] == chains;
      if n > 0 {
        hide Linked, Sits, Flatten;
        EachOnce(n - 1, e);
        CountInChain(n - 1, e);
        FlattenNext(chains, n - 1);
      }
    }
  }

  /**
   * Two insertions into an empty table: the first one stores a record without packets and bytes, and the second one,
   * of another key, takes over its row, flow counter and flags included.
   */
  method EmptyRecordIsOverwritten(first: Record, second: Record, elemSize: nat) returns (t: AcctTable)
    requires Full(first.key) && Full(second.key) && first.key != second.key && !first.Counts() && elemSize > 0
    ensures t.Valid()
    ensures t.Contents() == map[second.key := Added(Added(Zero, first), second)]
  {
    hide AcctTable.Linked, AcctTable.Filled, AcctTable.Sits, AcctTable.Valid, AcctTable.Contents, AcctTable.RoomFor;
    hide Or, Added, Inserted;
    TwoKeysOneRow(first, second);
    var head := new Elem();
    t := new AcctTable([head], _ => 0, elemSize, elemSize);
    t.EmptyRoom(first.key, true);
    t.Holds(first.key);
    t.Insert(first, true);
    OneInsert(first);
    t.HollowRoom(first.key, second.key, true);
    t.Holds(second.key);
    t.Insert(second, true);
  }

  lemma OneInsert(x: Record)
    ensures Inserted(map[], x, Blank) == map[x.key := Added(Zero, x)] && (!x.Counts() ==> Hollow(Added(Zero, x)))
  {
  }

  /**
   * A record that is not harmless, and then one of a key further down the chain: the last-used pointer is at the first
   * one's element, the walk stops there, and the second one's key is stored again.
   */
  method StoredTwice(t: AcctTable, x: Record, y: Record, granted: bool) returns (e: Elem, ghost f: Elem)
    requires t.Valid() && Full(x.key) && Full(y.key) && !t.Harmless(x) && t.Further(x.key, y.key)
    modifies t`spaceLeft, t`noMoreSpace, t`chains, t`place, t`holder, t.lastUsed, t.place.Keys
    ensures e != f && e in t.place && f in t.place && e.key == f.key == y.key && e.Used() == y.Counts()
  {
    hide AcctTable.Linked, AcctTable.Filled, AcctTable.Valid, AcctTable.Pos, AcctTable.Contents, AcctTable.Passes, AcctTable.RoomFor;
    hide AcctTable.Further, Matches, Or, Inserted;
    t.ValidLinked();
    t.Ahead(x.key, y.key);
    f := t.holder[y.key];
    ghost var ex, before := t.holder[x.key], t.place[t.holder[x.key]].index;
    t.Hint(y.key);
    t.Insert(x, granted);
    var pos := t.Pos(y.key);
    var hint := t.lastUsed[pos];
    assert hint == ex && ex.key == x.key && f.key == y.key;
    FullMatchIsEquality(ex.key, y.key);
    assert !Matches(hint.key, y.key);
    ghost var i;
    e, i := t.Walk(y.key);
    t.Free(ex, y.key);
    assert i == before;
    t.Overwrite(e, y);
    t.Remember(pos, e);
  }

  /** So it happens: two keys in one chain, a reset request for the first of them, an empty record of it, and one more of the other. */
  method EmptyRecordSplitsKey(a: Record, b: Record, elemSize: nat) returns (t: AcctTable, e: Elem, ghost f: Elem)
    requires Full(a.key) && Full(b.key) && a.key != b.key && a.Counts() && b.Counts() && elemSize > 0
    ensures e != f && e in t.place && f in t.place && e.key == f.key && e.Used()
  {
    hide AcctTable.Linked, AcctTable.Filled, AcctTable.Valid, AcctTable.Contents, AcctTable.RoomFor, AcctTable.Pos, Or, Added;
    t := TwoInOneChain(a, b, elemSize);
    var one := t.Search(a.key);
    var two := t.Search(b.key);
    t.Holds(a.key);
    t.Holds(b.key);
    if one.next != null {
      t.NextHolds(one);
      t.Holds(one.next.key);
      t.SetResetFlag(one);
      t.Holds(a.key);
      e, f := StoredTwice(t, a.(packets := 0, bytes := 0), b, true);
    } else {
      t.BeforeLast(two, one);
      t.NextHolds(two);
      t.Holds(two.next.key);
      t.SetResetFlag(two);
      t.Holds(b.key);
      e, f := StoredTwice(t, b.(packets := 0, bytes := 0), a, true);
    }
  }

  method TwoInOneChain(a: Record, b: Record, elemSize: nat) returns (t: AcctTable)
    requires Full(a.key) && Full(b.key) && a.key != b.key && a.Counts() && b.Counts() && elemSize > 0
    ensures fresh(t) && fresh(t.lastUsed) && fresh(t.place.Keys) && t.Valid() && |t.heads| == 1
    ensures t.Contents().Keys == {a.key, b.key}
  {
    hide AcctTable.Linked, AcctTable.Filled, AcctTable.Valid, AcctTable.Contents, AcctTable.RoomFor, Or;
    var head := new Elem();
    t := new AcctTable([head], _ => 0, elemSize, elemSize);
    t.EmptyRoom(a.key, true);
    t.Holds(a.key);
    t.Insert(a, true);
    OneInsert(a);
    t.RoomFits(b, true);
    t.Holds(b.key);
    t.Insert(b, true);
  }
}
