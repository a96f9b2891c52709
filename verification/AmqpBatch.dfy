/** The JSON batching loop of amqp_cache_purge (src/amqp_plugin.c): records packed into a bounded buffer. */
module AmqpBatch {
  import opened Wrappers

  /** A cache entry, with the JSON string that it is rendered to. */
  datatype Entry = Entry(committed: bool, json: Option<string>)

  /** What was handed to p_amqp_publish_string(), and whether it succeeded. */
  datatype Message = Message(text: string, ok: bool)

  const NUL := 0 as char

  // ----- C strings in a fixed buffer

  predicate CString(s: seq<char>, n: nat) {
    n < |s| && s[n] == NUL && NUL !in s[..n]
  }

  method Strlen(buf: array<char>, ghost n: nat) returns (len: nat)
    requires CString(buf[..], n)
    ensures len == n
  {
    forall k | 0 <= k < n ensures buf[k] != NUL {
      assert buf[..][..n][k] == buf[k];
    }
    len := 0;
    while buf[len] != NUL
      invariant len <= n
      decreases n - len
    {
      len := len + 1;
    }
  }

  /** Writes a string and its terminator at `off`. */
  method CopyAt(buf: array<char>, off: nat, s: string)
    requires off + |s| < buf.Length && NUL !in s && NUL !in buf[..off]
    modifies buf
    ensures CString(buf[..], off + |s|) && buf[..off + |s|] == old(buf[..off]) + s
  {
    var i := 0;
    while i < |s|
      invariant i <= |s| && buf[..off + i] == old(buf[..off]) + s[..i]
    {
      buf[off + i] := s[i];
      assert buf[..off + (i + 1)] == buf[..off + i] + [s[i]];
      i := i + 1;
    }
    buf[off + |s|] := NUL;
    assert buf[..off + |s|] == old(buf[..off]) + s;
    assert buf[..][..off + |s|] == buf[..off + |s|];
  }

  method StringAddNewline(buf: array<char>, ghost n: nat)
    requires CString(buf[..], n) && n + 1 < buf.Length
    modifies buf
    ensures CString(buf[..], n + 1) && buf[..n + 1] == old(buf[..n]) + "\n"
  {
    var len := Strlen(buf, n);
    assert buf[..][..n] == buf[..n];
    buf[len] := '\n';
    len := len + 1;
    buf[len] := NUL;
    assert buf[..][..n + 1] == old(buf[..n]) + "\n";
    assert buf[..n + 1] == buf[..][..n + 1];
  }

  /** A record and a newline behind what is in the buffer. */
  method PutLine(buf: array<char>, off: nat, s: string)
    requires off + |s| + 1 < buf.Length && NUL !in s && (off == 0 || CString(buf[..], off))
    modifies buf
    ensures CString(buf[..], off + |s| + 1) && buf[..off + |s| + 1] == old(buf[..off]) + s + "\n"
  {
    assert off > 0 ==> buf[..][..off] == buf[..off];
    CopyAt(buf, off, s);
    StringAddNewline(buf, off + |s|);
  }

  // ----- the stream of records

  /** The committed records, in queue order. */
  function Records(queue: seq<Entry>): seq<string> {
    if queue == [] then [] else
    var e := queue[|queue| - 1];
    Records(queue[..|queue| - 1]) + if e.committed && e.json.Some? then [e.json.value] else []
  }

  /** Every record on a line of its own. */
  function Lines(records: seq<string>): string {
    if records == [] then "" else Lines(records[..|records| - 1]) + records[|records| - 1] + "\n"
  }

  function Concat<T>(groups: seq<seq<T>>): seq<T> {
    if groups == [] then [] else Concat(groups[..|groups| - 1]) + groups[|groups| - 1]
  }

  /** The number of records in the groups that were published. */
  function Published(sent: seq<Message>, groups: seq<seq<string>>): nat
    requires |sent| == |groups|
  {
    if sent == [] then 0 else
    var last := |sent| - 1;
    Published(sent[..last], groups[..last]) + if sent[last].ok then |groups[last]| else 0
  }

  function Texts(sent: seq<Message>): (r: seq<string>)
    ensures |r| == |sent| && forall i :: 0 <= i < |sent| ==> r[i] == sent[i].text
  {
    seq(|sent|, i requires 0 <= i < |sent| => sent[i].text)
  }

  predicate AllOk(sent: seq<Message>) {
    forall i :: 0 <= i < |sent| ==> sent[i].ok
  }

  lemma {:induction false} LinesConcat(groups: seq<seq<string>>, texts: seq<string>)
    requires |groups| == |texts| && forall i :: 0 <= i < |groups| ==> texts[i] == Lines(groups[i])
    ensures Concat(texts) == Lines(Concat(groups))
  {
    if groups != [] {
      var last := |groups| - 1;
      LinesConcat(groups[..last], texts[..last]);
      LinesAppend(Concat(groups[..last]), groups[last]);
    }
  }

  lemma {:induction false} LinesAppend(a: seq<string>, b: seq<string>)
    ensures Lines(a + b) == Lines(a) + Lines(b)
  {
    if b == [] {
      assert a + b == a;
    } else {
      var c := a + b;
      assert c[..|c| - 1] == a + b[..|b| - 1] && c[|c| - 1] == b[|b| - 1];
      LinesAppend(a, b[..|b| - 1]);
    }
  }

  lemma {:induction false} PublishedAll(sent: seq<Message>, groups: seq<seq<string>>)
    requires |sent| == |groups|
    ensures Published(sent, groups) <= |Concat(groups)|
    ensures AllOk(sent) ==> Published(sent, groups) == |Concat(groups)|
  {
    if sent != [] {
      PublishedAll(sent[..|sent| - 1], groups[..|sent| - 1]);
    }
  }

  lemma {:induction false} RecordsPrefix(queue: seq<Entry>, j: nat)
    requires j <= |queue|
    ensures Records(queue[..j]) <= Records(queue)
  {
    if j == |queue| {
      assert queue[..j] == queue;
    } else {
      assert queue[..|queue| - 1][..j] == queue[..j];
      RecordsPrefix(queue[..|queue| - 1], j);
    }
  }

  lemma RecordsNext(queue: seq<Entry>, j: nat)
    requires j < |queue|
    ensures if queue[j].committed && queue[j].json.Some?
            then Records(queue[..j + 1]) == Records(queue[..j]) + [queue[j].json.value]
            else Records(queue[..j + 1]) == Records(queue[..j])
  {
    assert queue[..j + 1][..j] == queue[..j];
  }

  // ----- messages and the records in them

  /** Each message is the text of one group of records: with batching off, of a single record without a newline. */
  ghost predicate Carries(sent: seq<Message>, groups: seq<seq<string>>, multi: nat) {
    && |sent| == |groups|
    && forall i :: 0 <= i < |sent| ==>
         if multi == 0 then groups[i] == [sent[i].text] else sent[i].text == Lines(groups[i])
  }

  /** A group follows another one when its first record did not fit behind it. */
  predicate Follows(group: seq<string>, before: seq<string>, multi: nat)
    requires group != []
  {
    |Lines(before)| + |group[0]| + 1 >= multi
  }

  /** Groups are not empty, fit in the buffer, and are as long as they can be. */
  ghost predicate Packed(groups: seq<seq<string>>, multi: nat) {
    groups == [] ||
    var last := |groups| - 1;
    && Packed(groups[..last], multi)
    && groups[last] != [] && |Lines(groups[last])| < multi
    && (last > 0 ==> Follows(groups[last], groups[last - 1], multi))
  }

  lemma PackedNext(groups: seq<seq<string>>, group: seq<string>, multi: nat)
    ensures Packed(groups + [group], multi) <==>
      && Packed(groups, multi) && group != [] && |Lines(group)| < multi
      && (groups != [] ==> Follows(group, groups[|groups| - 1], multi))
  {
    assert (groups + [group])[..|groups|] == groups;
  }

  ghost function WithPending(groups: seq<seq<string>>, pending: seq<string>): seq<seq<string>> {
    if pending == [] then groups else groups + [pending]
  }

  lemma SentNext(sent: seq<Message>, groups: seq<seq<string>>, m: Message, group: seq<string>, multi: nat)
    requires Carries(sent, groups, multi) && (if multi == 0 then group == [m.text] else m.text == Lines(group))
    ensures Carries(sent + [m], groups + [group], multi) && Concat(groups + [group]) == Concat(groups) + group
    ensures Published(sent + [m], groups + [group]) == Published(sent, groups) + if m.ok then |group| else 0
  {
    assert (sent + [m])[..|sent|] == sent && (groups + [group])[..|groups|] == groups;
  }

  lemma LinesNext(pending: seq<string>, t: string)
    ensures Lines(pending + [t]) == Lines(pending) + t + "\n"
  {
    assert (pending + [t])[..|pending|] == pending;
  }

  lemma LineOf(t: string)
    ensures Lines([t]) == t + "\n" == "" + t + "\n"
  {
    LinesNext([], t);
    assert [] + [t] == [t];
  }

  /** The variables of the loop. */
  datatype Progress = Progress(sent: seq<Message>, qn: nat, mvNum: nat, off: nat, failed: bool)

  /** The records of the messages sent, and those in the buffer. */
  datatype Split = Split(groups: seq<seq<string>>, pending: seq<string>)

  /** The outcome of each call to the broker, and after a failure at most `more` further calls. */
  ghost predicate Outcomes(sent: seq<Message>, publish: nat -> bool, more: nat) {
    forall i :: 0 <= i < |sent| ==> sent[i].ok == publish(i) && (!sent[i].ok ==> |sent| <= i + 1 + more)
  }

  /** `groups` have been sent, `pending` is in the buffer, and together they are the records `done`. */
  ghost predicate Batching(p: Progress, g: Split, done: seq<string>, multi: nat, publish: nat -> bool) {
    && Carries(p.sent, g.groups, multi) && p.qn == Published(p.sent, g.groups) && Concat(g.groups) + g.pending == done
    && (if multi == 0 then g.pending == []
        else Packed(WithPending(g.groups, g.pending), multi) && (g.pending == [] ==> g.groups == []))
    && p.mvNum == |g.pending| && p.off == |Lines(g.pending)|
    && Outcomes(p.sent, publish, 0) && (p.failed <==> !AllOk(p.sent)) && (p.failed && multi > 0 ==> |g.pending| == 1)
  }

  predicate InBuffer(s: seq<char>, p: Progress, g: Split) {
    CString(s, p.off) && s[..p.off] == Lines(g.pending)
  }

  function Sent(p: Progress, m: Message, records: nat): Progress {
    p.(sent := p.sent + [m], qn := p.qn + if m.ok then records else 0, failed := !m.ok)
  }

  lemma OutcomesNext(sent: seq<Message>, publish: nat -> bool, m: Message)
    requires Outcomes(sent, publish, 0) && AllOk(sent) && m.ok == publish(|sent|)
    ensures Outcomes(sent + [m], publish, 0) && (AllOk(sent + [m]) <==> m.ok)
  {
    assert (sent + [m])[|sent|] == m;
  }

  /** The flush at the end may come after a failure. */
  lemma OutcomesLast(sent: seq<Message>, publish: nat -> bool, m: Message)
    requires Outcomes(sent, publish, 0) && m.ok == publish(|sent|)
    ensures Outcomes(sent + [m], publish, 1) && (AllOk(sent + [m]) ==> AllOk(sent))
  {
    var more := sent + [m];
    assert forall i :: 0 <= i < |sent| ==> more[i] == sent[i];
  }

  lemma SomeLines(records: seq<string>)
    ensures Lines(records) == "" <==> records == []
  {
  }

  /** One more record in the group being filled. */
  lemma RecordFits(p: Progress, g: Split, done: seq<string>, multi: nat, publish: nat -> bool, t: string)
    requires Batching(p, g, done, multi, publish) && multi > 0 && p.off + |t| + 1 < multi && !p.failed
    ensures Batching(p.(mvNum := p.mvNum + 1, off := p.off + |t| + 1), g.(pending := g.pending + [t]), done + [t], multi, publish)
  {
    LinesNext(g.pending, t);
    PackedNext(g.groups, g.pending, multi);
    PackedNext(g.groups, g.pending + [t], multi);
    hide Lines, Packed, Concat, Published, Carries, Outcomes, AllOk;
    assert Concat(g.groups) + (g.pending + [t]) == done + [t];
  }

  /** The full group is sent, and the record opens the next one. */
  lemma GroupSent(p: Progress, g: Split, done: seq<string>, multi: nat, publish: nat -> bool, t: string, m: Message)
    requires Batching(p, g, done, multi, publish) && !p.failed && m == Message(Lines(g.pending), publish(|p.sent|))
    requires p.off + |t| + 1 >= multi > |t| + 1
    ensures Batching(Sent(p, m, p.mvNum).(mvNum := 1, off := |t| + 1), Split(g.groups + [g.pending], [t]), done + [t], multi, publish)
  {
    SomeLines(g.pending);
    hide Lines, Published, Concat, Carries, Packed, Outcomes, AllOk;
    LineOf(t);
    SentNext(p.sent, g.groups, m, g.pending, multi);
    OutcomesNext(p.sent, publish, m);
    PackedNext(g.groups + [g.pending], [t], multi);
  }

  /** With batching off every record is a message. */
  lemma RecordSent(p: Progress, g: Split, done: seq<string>, publish: nat -> bool, m: Message)
    requires Batching(p, g, done, 0, publish) && !p.failed && m.ok == publish(|p.sent|)
    ensures Batching(Sent(p, m, 1), g.(groups := g.groups + [[m.text]]), done + [m.text], 0, publish)
  {
    SentNext(p.sent, g.groups, m, [m.text], 0);
    OutcomesNext(p.sent, publish, m);
    hide Lines, Published, Concat, Carries, Packed, Outcomes, AllOk;
  }

  /** What the purge promises, once all of `done` has been sent. */
  ghost predicate Finished(sent: seq<Message>, qn: nat, groups: seq<seq<string>>, multi: nat, publish: nat -> bool) {
    && Carries(sent, groups, multi) && (multi > 0 ==> Packed(groups, multi))
    && qn == Published(sent, groups) && Outcomes(sent, publish, if multi == 0 then 0 else 1)
  }

  /** The final flush. */
  lemma LastSent(p: Progress, g: Split, done: seq<string>, multi: nat, publish: nat -> bool, m: Message)
    requires Batching(p, g, done, multi, publish) && p.off > 0 && m == Message(Lines(g.pending), publish(|p.sent|))
    ensures Finished(p.sent + [m], p.qn + if m.ok then p.mvNum else 0, g.groups + [g.pending], multi, publish)
    ensures Concat(g.groups + [g.pending]) == done
    ensures AllOk(p.sent + [m]) ==> !p.failed
  {
    hide Lines, Published, Concat, Carries, Packed, Outcomes, AllOk;
    SomeLines(g.pending);
    SentNext(p.sent, g.groups, m, g.pending, multi);
    OutcomesLast(p.sent, publish, m);
  }

  /** Stopping without it. */
  lemma Stopped(p: Progress, g: Split, done: seq<string>, multi: nat, publish: nat -> bool)
    requires Batching(p, g, done, multi, publish)
    ensures Finished(p.sent, p.qn, g.groups, multi, publish) && Concat(g.groups) <= done
    ensures multi == 0 || p.off == 0 ==> Concat(g.groups) == done
    ensures AllOk(p.sent) <==> !p.failed
  {
    PackedNext(g.groups, g.pending, multi);
    if multi == 0 || p.off == 0 {
      assert g.pending == [];
    }
  }

  /** A failed call is the last one, and the record that made it necessary is in the buffer. */
  lemma FailedLast(p: Progress, g: Split, done: seq<string>, multi: nat, publish: nat -> bool)
    requires Batching(p, g, done, multi, publish)
    ensures |p.sent| == |g.groups|
    ensures p.failed ==> p.sent != [] && !p.sent[|p.sent| - 1].ok && (multi > 0 ==> |g.pending| == 1 && p.off > 0)
  {
    if p.failed && multi > 0 {
      LinesNext(g.pending[..0], g.pending[0]);
      assert g.pending == g.pending[..0] + [g.pending[0]];
    }
  }

  /** One record, with batching on: into the buffer, or after sending what is there. */
  method AddRecord(jsonBuf: array<char>, p: Progress, json: string, ok: bool, ghost g: Split, ghost done: seq<string>, ghost publish: nat -> bool)
    returns (q: Progress, ghost h: Split)
    requires Batching(p, g, done, jsonBuf.Length, publish) && InBuffer(jsonBuf[..], p, g) && !p.failed
    requires NUL !in json && |json| + 1 < jsonBuf.Length && ok == publish(|p.sent|)
    modifies jsonBuf
    ensures Batching(q, h, done + [json], jsonBuf.Length, publish) && InBuffer(jsonBuf[..], q, h)
  {
    hide Batching, Lines;
    var jsonStrlen := |json| + 1;
    assert jsonBuf[..][..p.off] == jsonBuf[..p.off];
    if jsonStrlen >= jsonBuf.Length - p.off {
      var m := Message(jsonBuf[..p.off], ok);
      GroupSent(p, g, done, jsonBuf.Length, publish, json, m);
      LineOf(json);
      q, h := Sent(p, m, p.mvNum), Split(g.groups + [g.pending], [json]);
      PutLine(jsonBuf, 0, json);
      q := q.(mvNum := 1, off := jsonStrlen);
    } else {
      RecordFits(p, g, done, jsonBuf.Length, publish, json);
      LinesNext(g.pending, json);
      PutLine(jsonBuf, p.off, json);
      q, h := p.(mvNum := p.mvNum + 1, off := p.off + jsonStrlen), g.(pending := g.pending + [json]);
    }
    assert jsonBuf[..][..q.off] == jsonBuf[..q.off];
  }

  /** One record, with batching on or off. */
  method Commit(jsonBuf: array<char>, p: Progress, json: string, ok: bool, ghost g: Split, ghost done: seq<string>, ghost publish: nat -> bool)
    returns (q: Progress, ghost h: Split)
    requires Batching(p, g, done, jsonBuf.Length, publish) && !p.failed && ok == publish(|p.sent|)
    requires jsonBuf.Length > 0 ==> InBuffer(jsonBuf[..], p, g) && NUL !in json && |json| + 1 < jsonBuf.Length
    modifies jsonBuf
    ensures Batching(q, h, done + [json], jsonBuf.Length, publish) && (jsonBuf.Length > 0 ==> InBuffer(jsonBuf[..], q, h))
  {
    hide *;
    if jsonBuf.Length > 0 {
      q, h := AddRecord(jsonBuf, p, json, ok, g, done, publish);
    } else {
      var m := Message(json, ok);
      RecordSent(p, g, done, publish, m);
      q, h := Sent(p, m, 1), g.(groups := g.groups + [[json]]);
    }
  }

  /** The flush after the loop; `ok` is the broker's answer. */
  method Flush(jsonBuf: array<char>, p: Progress, ok: bool, ghost g: Split, ghost done: seq<string>, ghost publish: nat -> bool)
    returns (sent: seq<Message>, qn: nat, ghost groups: seq<seq<string>>)
    requires Batching(p, g, done, jsonBuf.Length, publish) && (jsonBuf.Length > 0 ==> InBuffer(jsonBuf[..], p, g))
    requires ok == publish(|p.sent|)
    ensures Finished(sent, qn, groups, jsonBuf.Length, publish) && Concat(groups) == done
    ensures AllOk(sent) ==> !p.failed
    ensures |sent| == |groups|
    ensures p.failed && jsonBuf.Length == 0 ==> sent != [] && !sent[|sent| - 1].ok
    ensures p.failed && jsonBuf.Length > 0 ==> |sent| == |groups| >= 2 && !sent[|sent| - 2].ok && |groups[|sent| - 1]| == 1
  {
    hide Batching, Lines, Outcomes, AllOk, Carries, Published, Concat, Packed, InBuffer, Finished;
    Stopped(p, g, done, jsonBuf.Length, publish);
    FailedLast(p, g, done, jsonBuf.Length, publish);
    sent, qn, groups := p.sent, p.qn, g.groups;
    if jsonBuf.Length > 0 && p.off > 0 {
      BufferText(jsonBuf[..], p, g);
      assert jsonBuf[..][..p.off] == jsonBuf[..p.off];
      var m := Message(jsonBuf[..p.off], ok);
      LastSent(p, g, done, jsonBuf.Length, publish, m);
      sent, groups := sent + [m], groups + [g.pending];
      if m.ok {
        qn := qn + p.mvNum;
      }
    }
  }

  /** amqp_cache_purge for JSON output; `publish(i)` is whether the i-th call to the broker succeeds. */
  method Purge(queue: seq<Entry>, multi: nat, publish: nat -> bool)
    returns (sent: seq<Message>, qn: nat, exited: bool, ghost groups: seq<seq<string>>)
    requires forall i :: 0 <= i < |queue| && queue[i].json.Some? ==> queue[i].json.value != "" && NUL !in queue[i].json.value
    ensures Finished(sent, qn, groups, multi, publish) && Concat(groups) <= Records(queue)
    ensures AllOk(sent) && !exited ==> Concat(groups) == Records(queue)
    ensures exited ==> AllOk(sent) && HasTooLong(Records(queue), multi)
    ensures !exited && Concat(groups) != Records(queue) ==>
      && |sent| == |groups|
      && if multi == 0 then sent != [] && !sent[|sent| - 1].ok
         else |sent| >= 2 && !sent[|sent| - 2].ok && |groups[|sent| - 1]| == 1
  {
    hide *;
    var jsonBuf := new char[multi](_ => NUL);
    var p := Progress([], 0, 0, 0, false);
    ghost var g, done := Split([], []), Records(queue[..0]);
    var j: nat := 0;
    AtStart(jsonBuf[..], publish, multi, queue);
    while j < |queue| && !p.failed
      invariant j <= |queue| && done == Records(queue[..j])
      invariant Batching(p, g, done, multi, publish) && (multi > 0 ==> InBuffer(jsonBuf[..], p, g))
    {
      RecordsNext(queue, j);
      if queue[j].committed && queue[j].json.Some? {
        var json := queue[j].json.value;
        if multi > 0 && |json| + 1 >= multi {
          TooLong(queue, j, multi);
          Stopped(p, g, done, multi, publish);
          RecordsPrefix(queue, j);
          return p.sent, p.qn, true, g.groups;
        }
        p, g := Commit(jsonBuf, p, json, publish(|p.sent|), g, done, publish);
        done := done + [json];
      }
      j := j + 1;
    }
    RecordsPrefix(queue, j);
    assert j == |queue| ==> queue[..j] == queue;
    sent, qn, groups := Flush(jsonBuf, p, publish(|p.sent|), g, done, publish);
    exited := false;
  }

  lemma BufferText(buf: seq<char>, p: Progress, g: Split)
    requires InBuffer(buf, p, g)
    ensures p.off < |buf| && buf[..p.off] == Lines(g.pending)
  {
  }

  lemma AtStart(buf: seq<char>, publish: nat -> bool, multi: nat, queue: seq<Entry>)
    requires |buf| == multi && (multi > 0 ==> buf[0] == NUL)
    ensures Batching(Progress([], 0, 0, 0, false), Split([], []), Records(queue[..0]), multi, publish)
    ensures multi > 0 ==> InBuffer(buf, Progress([], 0, 0, 0, false), Split([], []))
  {
  }

  ghost predicate HasTooLong(records: seq<string>, multi: nat) {
    exists t :: t in records && |t| + 1 >= multi > 0
  }

  lemma TooLong(queue: seq<Entry>, j: nat, multi: nat)
    requires j < |queue| && queue[j].committed && queue[j].json.Some? && |queue[j].json.value| + 1 >= multi > 0
    ensures HasTooLong(Records(queue), multi)
  {
    RecordsNext(queue, j);
    RecordsPrefix(queue, j + 1);
    assert queue[j].json.value in Records(queue[..j + 1]);
  }

  /** If every publish succeeds, the messages read one after the other are the stream of records, one per line. */
  lemma StreamPreserved(queue: seq<Entry>, sent: seq<Message>, qn: nat, groups: seq<seq<string>>, multi: nat, publish: nat -> bool)
    requires Finished(sent, qn, groups, multi, publish) && Concat(groups) == Records(queue) && AllOk(sent)
    ensures qn == |Records(queue)|
    ensures if multi > 0 then Concat(Texts(sent)) == Lines(Records(queue)) else Texts(sent) == Records(queue)
  {
    PublishedAll(sent, groups);
    if multi > 0 {
      LinesConcat(groups, Texts(sent));
    } else {
      Singles(groups, Texts(sent));
    }
  }

  lemma {:induction false} Singles<T>(groups: seq<seq<T>>, items: seq<T>)
    requires |groups| == |items| && forall i :: 0 <= i < |groups| ==> groups[i] == [items[i]]
    ensures Concat(groups) == items
  {
    if groups != [] {
      Singles(groups[..|groups| - 1], items[..|groups| - 1]);
    }
  }
}
