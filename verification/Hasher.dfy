// The hasher's queue: a producer appends entries and publishes credits, a consumer takes batches against them.
module Hasher {
  import opened Codec
  import opened Entries

  /** A path from the generator, with the hash that the image yields, if it yields one. */
  datatype Source = Source(path: Path, hash: Option<ExifHash>)

  type positive = n: nat | n >= 1 witness 1

  datatype Rule = Rule(threshold: positive, unique: bool)

  /** `owed`: the last append completed a multiple of the threshold and its credits are still to be added. */
  datatype Queue = Queue(todo: seq<Source>, entries: seq<Entry>, owed: bool, credits: nat, delivered: nat, done: bool)

  function Start(sources: seq<Source>): Queue {
    Queue(sources, [], false, 0, 0, false)
  }

  // ----- the steps of the producer -----

  predicate CanHash(q: Queue) {
    q.todo != [] && !q.owed && !q.done
  }

  /** Hashes the next path and appends it, unless it has no hash or its hash is there already. */
  function HashNext(rule: Rule, q: Queue): Queue
    requires CanHash(q)
  {
    var source, rest := q.todo[0], q.(todo := q.todo[1..]);
    if source.hash.None? || (rule.unique && source.hash.value in HashSet(q.entries)) then rest
    else
      var entries := q.entries + [Entry(source.hash.value, source.path)];
      rest.(entries := entries, owed := |HashSet(entries)| % rule.threshold == 0)
  }

  predicate CanCredit(q: Queue) {
    q.owed
  }

  function Credit(rule: Rule, q: Queue): Queue
    requires CanCredit(q)
  {
    q.(owed := false, credits := q.credits + rule.threshold)
  }

  predicate CanFinish(q: Queue) {
    q.todo == [] && !q.owed && !q.done
  }

  function Finish(rule: Rule, q: Queue): Queue
    requires CanFinish(q)
  {
    q.(credits := q.credits + |HashSet(q.entries)| % rule.threshold, done := true)
  }

  // ----- the step of the consumer -----

  /** The condition that a caller of `Get` waits for. */
  predicate CanTake(q: Queue, count: nat) {
    q.credits >= count || q.done
  }

  function TakeCount(q: Queue, count: nat): (k: nat)
    ensures k <= q.credits
  {
    if count <= q.credits then count else q.credits
  }

  function Take(q: Queue, count: nat): Queue {
    var k := TakeCount(q, count);
    q.(credits := q.credits - k, delivered := q.delivered + k)
  }

  // ----- credits and entries agree -----

  /** Every entry is delivered, under a credit, or in a batch that is not complete. */
  ghost predicate Balanced(rule: Rule, q: Queue) {
    var n := |q.entries|;
    && (rule.unique ==> Distinct(q.entries))
    && (q.done ==> q.todo == [] && !q.owed)
    && (q.owed ==> n > 0 && RoundDown(n, rule.threshold) == n)
    && q.delivered + q.credits ==
       if q.done then n else if q.owed then n - rule.threshold else RoundDown(n, rule.threshold)
  }

  /** The greatest multiple of `t` up to `n`. */
  function RoundDown(n: nat, t: positive): (m: nat)
    ensures m <= n < m + t
  {
    if n < t then 0 else t + RoundDown(n - t, t)
  }

  lemma {:induction false} RoundDownIsMultiple(n: nat, t: positive)
    ensures RoundDown(n, t) == n - n % t == t * (n / t)
  {
    if n < t {
      Quotient(n, t, 0, n);
    } else {
      RoundDownIsMultiple(n - t, t);
      var q, r := (n - t) / t, (n - t) % t;
      assert n == t * (q + 1) + r;
      Quotient(n, t, q + 1, r);
    }
  }

  /** The combinations that the program uses. */
  predicate Counted(rule: Rule) {
    rule.unique || rule.threshold == 1
  }

  lemma {:induction false} HashSetSize(es: seq<Entry>)
    requires Distinct(es)
    ensures |HashSet(es)| == |es|
  {
    if es != [] {
      var n := |es| - 1;
      HashSetSize(es[..n]);
      InHashSet(es[..n], es[n].hash);
    }
  }

  lemma {:induction false} NextMultiple(n: nat, t: positive)
    ensures (n + 1) % t == 0 ==> RoundDown(n + 1, t) == n + 1 && RoundDown(n, t) == n + 1 - t
    ensures (n + 1) % t != 0 ==> RoundDown(n + 1, t) == RoundDown(n, t)
  {
    RoundDownIsMultiple(n, t);
    RoundDownIsMultiple(n + 1, t);
    var q, r := n / t, n % t;
    if r + 1 == t {
      assert n + 1 == t * (q + 1);
      Quotient(n + 1, t, q + 1, 0);
    } else {
      Quotient(n + 1, t, q, r + 1);
    }
  }

  lemma Quotient(n: nat, t: positive, q: nat, r: nat)
    requires n == t * q + r && r < t
    ensures n / t == q && n % t == r
  {
    var x := n / t - q;
    assert n == t * (n / t) + n % t;
    assert t * x == t * (n / t) - t * q;
    Times(t, x);
  }

  lemma Times(t: positive, x: int)
    ensures x >= 1 ==> t * x >= t
    ensures x <= -1 ==> t * x + t <= 0
  {
  }

  /** Counting hashes is counting entries, as far as the program's rules can tell. */
  lemma CountedSize(rule: Rule, es: seq<Entry>)
    requires Counted(rule) && (rule.unique ==> Distinct(es))
    ensures |HashSet(es)| % rule.threshold == 0 <==> |es| % rule.threshold == 0
  {
    if rule.unique {
      HashSetSize(es);
    } else {
      hide HashSet;
      assert |es| % 1 == 0 && |HashSet(es)| % 1 == 0;
    }
  }

  lemma AppendedDistinct(es: seq<Entry>, e: Entry)
    requires Distinct(es) && e.hash !in HashSet(es)
    ensures Distinct(es + [e])
  {
    InHashSet(es, e.hash);
  }

  lemma HashNextBalanced(rule: Rule, q: Queue)
    requires Counted(rule) && CanHash(q) && Balanced(rule, q)
    ensures Balanced(rule, HashNext(rule, q))
  {
    hide HashSet, RoundDown, Distinct;
    var next := HashNext(rule, q);
    if |next.entries| > |q.entries| {
      if rule.unique {
        AppendedDistinct(q.entries, next.entries[|q.entries|]);
      }
      CountedSize(rule, next.entries);
      NextMultiple(|q.entries|, rule.threshold);
    }
  }

  lemma FinishBalanced(rule: Rule, q: Queue)
    requires Counted(rule) && CanFinish(q) && Balanced(rule, q)
    ensures Balanced(rule, Finish(rule, q))
  {
    RoundDownIsMultiple(|q.entries|, rule.threshold);
    if rule.unique {
      HashSetSize(q.entries);
    } else {
      assert forall n: nat :: n % 1 == 0;
    }
  }

  // ----- runs of the queue -----

  datatype QueueStep = DoHash | DoCredit | DoFinish | DoGet

  predicate CanDo(q: Queue, a: QueueStep, count: nat) {
    match a
    case DoHash => CanHash(q)
    case DoCredit => CanCredit(q)
    case DoFinish => CanFinish(q)
    case DoGet => CanTake(q, count)
  }

  function Do(rule: Rule, q: Queue, a: QueueStep, count: nat): Queue
    requires CanDo(q, a, count)
  {
    match a
    case DoHash => HashNext(rule, q)
    case DoCredit => Credit(rule, q)
    case DoFinish => Finish(rule, q)
    case DoGet => Take(q, count)
  }

  ghost predicate Legal(rule: Rule, q: Queue, run: seq<QueueStep>, count: nat)
    decreases |run|
  {
    run == [] || (CanDo(q, run[0], count) && Legal(rule, Do(rule, q, run[0], count), run[1..], count))
  }

  ghost function After(rule: Rule, q: Queue, run: seq<QueueStep>, count: nat): Queue
    requires Legal(rule, q, run, count)
    decreases |run|
  {
    if run == [] then q else After(rule, Do(rule, q, run[0], count), run[1..], count)
  }

  /** The batches that the `Get` calls of a run return. */
  ghost function Batches(rule: Rule, q: Queue, run: seq<QueueStep>, count: nat): (batches: seq<seq<Entry>>)
    requires Counted(rule) && Balanced(rule, q) && Legal(rule, q, run, count)
    decreases |run|
  {
    if run == [] then []
    else
      DoBalanced(rule, q, run[0], count);
      var next := Do(rule, q, run[0], count);
      var batch := if run[0].DoGet? then [q.entries[q.delivered..next.delivered]] else [];
      batch + Batches(rule, next, run[1..], count)
  }

  lemma DoBalanced(rule: Rule, q: Queue, a: QueueStep, count: nat)
    requires Counted(rule) && Balanced(rule, q) && CanDo(q, a, count)
    ensures Balanced(rule, Do(rule, q, a, count))
    ensures q.delivered <= Do(rule, q, a, count).delivered <= |q.entries| <= |Do(rule, q, a, count).entries|
    ensures q.entries <= Do(rule, q, a, count).entries
  {
    match a
    case DoHash => HashNextBalanced(rule, q); CreditsBound(rule, q);
    case DoCredit => CreditsBound(rule, q);
    case DoFinish => FinishBalanced(rule, q); CreditsBound(rule, q);
    case DoGet => CreditsBound(rule, q);
  }

  /** No credit without an entry, so the consumer never steps past the end of the list. */
  lemma CreditsBound(rule: Rule, q: Queue)
    requires Balanced(rule, q)
    ensures q.delivered + q.credits <= |q.entries|
  {
  }

  /** All entries that the sources yield, in order: what the list holds in the end, whatever the schedule. */
  ghost function Listed(rule: Rule, entries: seq<Entry>, todo: seq<Source>): (r: seq<Entry>)
    ensures entries <= r
    decreases |todo|
  {
    if todo == [] then entries
    else if todo[0].hash.None? || (rule.unique && todo[0].hash.value in HashSet(entries)) then
      Listed(rule, entries, todo[1..])
    else Listed(rule, entries + [Entry(todo[0].hash.value, todo[0].path)], todo[1..])
  }

  lemma {:induction false} ListedFrom(rule: Rule, entries: seq<Entry>, todo: seq<Source>, e: Entry)
    requires e in Listed(rule, entries, todo)
    ensures e in entries || Source(e.path, Some(e.hash)) in todo
    decreases |todo|
  {
    if todo != [] {
      var source := todo[0];
      if source.hash.None? || (rule.unique && source.hash.value in HashSet(entries)) {
        ListedFrom(rule, entries, todo[1..], e);
      } else {
        var more := Entry(source.hash.value, source.path);
        ListedFrom(rule, entries + [more], todo[1..], e);
        assert source == Source(more.path, Some(more.hash));
      }
    }
  }

  lemma {:induction false} ListedSnoc(rule: Rule, entries: seq<Entry>, todo: seq<Source>, last: Source)
    ensures var all := Listed(rule, entries, todo);
            Listed(rule, entries, todo + [last])
            == if last.hash.None? || (rule.unique && last.hash.value in HashSet(all)) then all
               else all + [Entry(last.hash.value, last.path)]
    decreases |todo|
  {
    if todo == [] {
      assert ([] + [last])[1..] == [];
    } else {
      var source, more := todo[0], todo[1..] + [last];
      assert (todo + [last])[1..] == more;
      if source.hash.None? || (rule.unique && source.hash.value in HashSet(entries)) {
        ListedSnoc(rule, entries, todo[1..], last);
      } else {
        ListedSnoc(rule, entries + [Entry(source.hash.value, source.path)], todo[1..], last);
      }
    }
  }

  /** The `i`th path is that of the entry, and the first one that yields its hash. */
  ghost predicate IsFirst(sources: seq<Source>, i: nat, e: Entry) {
    && i < |sources| && sources[i] == Source(e.path, Some(e.hash))
    && forall j :: 0 <= j < i ==> sources[j].hash != Some(e.hash)
  }

  lemma FirstSnoc(before: seq<Source>, last: Source, i: nat, e: Entry)
    ensures IsFirst(before + [last], i, e)
       <==> if i < |before| then IsFirst(before, i, e)
            else i == |before| && last == Source(e.path, Some(e.hash)) && !Yields(before, e.hash)
  {
    var all := before + [last];
    assert forall j :: 0 <= j < |before| ==> all[j] == before[j];
  }

  ghost predicate Yields(sources: seq<Source>, h: ExifHash) {
    exists j :: 0 <= j < |sources| && sources[j].hash == Some(h)
  }

  lemma YieldsSnoc(before: seq<Source>, last: Source, h: ExifHash)
    ensures Yields(before + [last], h) <==> Yields(before, h) || last.hash == Some(h)
  {
    var all := before + [last];
    assert all[|before|] == last && forall j :: 0 <= j < |before| ==> all[j] == before[j];
    if j :| 0 <= j < |before| && before[j].hash == Some(h) {
      assert all[j].hash == Some(h);
    }
  }

  /** If duplicates are dropped, the list holds, for each hash that some path yields, the first such path. */
  lemma {:induction false} ListedExactly(rule: Rule, sources: seq<Source>, e: Entry)
    requires rule.unique
    ensures e in Listed(rule, [], sources) <==> exists i: nat :: IsFirst(sources, i, e)
    ensures e.hash in HashSet(Listed(rule, [], sources)) <==> Yields(sources, e.hash)
    decreases |sources|
  {
    if sources != [] {
      var n := |sources| - 1;
      var before, last := sources[..n], sources[n];
      assert sources == before + [last];
      ListedSnoc(rule, [], before, last);
      ListedExactly(rule, before, e);
      if last.hash.Some? {
        ListedExactly(rule, before, Entry(last.hash.value, last.path));
        HashSetSnoc(Listed(rule, [], before), Entry(last.hash.value, last.path));
      }
      YieldsSnoc(before, last, e.hash);
      hide IsFirst, Listed, Yields;
      forall i: nat
        ensures IsFirst(sources, i, e)
           <==> if i < n then IsFirst(before, i, e)
                else i == n && last == Source(e.path, Some(e.hash)) && !Yields(before, e.hash)
      {
        FirstSnoc(before, last, i, e);
      }
      FirstBelow(before, e);
      assert IsFirst(sources, n, e) <==> last == Source(e.path, Some(e.hash)) && !Yields(before, e.hash);
    }
  }

  lemma FirstBelow(sources: seq<Source>, e: Entry)
    ensures forall i: nat :: IsFirst(sources, i, e) ==> i < |sources|
  {
  }

  lemma FirstYields(sources: seq<Source>, i: nat, e: Entry)
    requires IsFirst(sources, i, e)
    ensures Yields(sources, e.hash)
  {
  }

  lemma EntryYields(rule: Rule, sources: seq<Source>, x: nat)
    requires rule.unique && x < |Listed(rule, [], sources)|
    ensures Yields(sources, Listed(rule, [], sources)[x].hash)
  {
    var all := Listed(rule, [], sources);
    ListedExactly(rule, sources, all[x]);
    assert all[x] in all;
    InHashSet(all, all[x].hash);
  }

  /** And the list is in the order of the paths. */
  lemma {:induction false} ListedInOrder(rule: Rule, sources: seq<Source>, x: nat, y: nat, i: nat, j: nat)
    requires rule.unique && x < y < |Listed(rule, [], sources)|
    requires IsFirst(sources, i, Listed(rule, [], sources)[x]) && IsFirst(sources, j, Listed(rule, [], sources)[y])
    ensures i < j
    decreases |sources|
  {
    if sources != [] {
      hide Listed, Yields, IsFirst;
      var n := |sources| - 1;
      var before, last := sources[..n], sources[n];
      assert sources == before + [last];
      var all, most := Listed(rule, [], sources), Listed(rule, [], before);
      ListedSnoc(rule, [], before, last);
      FirstSnoc(before, last, i, all[x]);
      FirstSnoc(before, last, j, all[y]);
      assert all[x] == most[x];
      EntryYields(rule, before, x);
      if y < |most| {
        assert all[y] == most[y];
        EntryYields(rule, before, y);
        ListedInOrder(rule, before, x, y, i, j);
      } else if j < n {
        FirstYields(before, j, all[y]);
        ListedExactly(rule, before, all[y]);
      }
    }
  }

  ghost function Concat(batches: seq<seq<Entry>>): seq<Entry> {
    if batches == [] then [] else batches[0] + Concat(batches[1..])
  }

  ghost predicate AllEmpty(batches: seq<seq<Entry>>) {
    forall i :: 0 <= i < |batches| ==> |batches[i]| == 0
  }

  ghost predicate FullExceptLast(batches: seq<seq<Entry>>, count: nat) {
    && (forall i :: 0 <= i < |batches| ==> |batches[i]| <= count)
    && (forall i, j :: 0 <= i < j < |batches| && |batches[i]| < count ==> |batches[j]| == 0)
  }

  /** Under every interleaving, the credits stay in balance with the list, the consumer never gets past its end, no
      entry is taken back, and what the list will hold in the end does not change. */
  lemma {:induction false} RunBounds(rule: Rule, q: Queue, run: seq<QueueStep>, count: nat)
    requires Counted(rule) && Balanced(rule, q) && Legal(rule, q, run, count)
    ensures var end := After(rule, q, run, count);
            && Balanced(rule, end) && q.delivered <= end.delivered <= |end.entries|
            && q.entries <= end.entries <= Listed(rule, q.entries, q.todo)
            && Listed(rule, q.entries, q.todo) == Listed(rule, end.entries, end.todo)
    decreases |run|
  {
    CreditsBound(rule, q);
    if run != [] {
      DoBalanced(rule, q, run[0], count);
      RunBounds(rule, Do(rule, q, run[0], count), run[1..], count);
    }
  }

  /** A batch that is not full empties the queue for good. */
  lemma {:induction false} NothingAfterShortBatch(rule: Rule, q: Queue, run: seq<QueueStep>, count: positive)
    requires Counted(rule) && Balanced(rule, q) && Legal(rule, q, run, count)
    requires q.done && q.credits == 0
    ensures AllEmpty(Batches(rule, q, run, count))
    ensures After(rule, q, run, count).delivered == |Listed(rule, q.entries, q.todo)|
    decreases |run|
  {
    if run != [] {
      var next := Do(rule, q, run[0], count);
      DoBalanced(rule, q, run[0], count);
      assert run[0].DoGet? && next == q;
      var rest := Batches(rule, next, run[1..], count);
      NothingAfterShortBatch(rule, next, run[1..], count);
      assert Batches(rule, q, run, count) == [q.entries[q.delivered..next.delivered]] + rest;
    }
  }

  /** In every interleaving, the batches are the consecutive slices of one and the same list. */
  lemma {:induction false} BatchesAreSlices(rule: Rule, q: Queue, run: seq<QueueStep>, count: nat)
    requires Counted(rule) && Balanced(rule, q) && Legal(rule, q, run, count)
    ensures var all := Listed(rule, q.entries, q.todo);
            var end := After(rule, q, run, count);
            && q.delivered <= end.delivered <= |all|
            && Concat(Batches(rule, q, run, count)) == all[q.delivered..end.delivered]
    decreases |run|
  {
    CreditsBound(rule, q);
    if run != [] {
      var all := Listed(rule, q.entries, q.todo);
      var next := Do(rule, q, run[0], count);
      DoBalanced(rule, q, run[0], count);
      assert all == Listed(rule, next.entries, next.todo);
      BatchesAreSlices(rule, next, run[1..], count);
      var rest, end := Batches(rule, next, run[1..], count), After(rule, next, run[1..], count);
      if run[0].DoGet? {
        SliceStep(all, q.entries, q.delivered, next.delivered, end.delivered);
        assert ([q.entries[q.delivered..next.delivered]] + rest)[1..] == rest;
      } else {
        assert [] + rest == rest;
      }
    }
  }

  lemma SliceStep(all: seq<Entry>, prefix: seq<Entry>, i: nat, j: nat, k: nat)
    requires prefix <= all && i <= j <= |prefix| && j <= k <= |all|
    ensures all[i..k] == prefix[i..j] + all[j..k]
  {
  }

  /** In every interleaving, all batches but the last are full. */
  lemma {:induction false} BatchesAreFull(rule: Rule, q: Queue, run: seq<QueueStep>, count: positive)
    requires Counted(rule) && Balanced(rule, q) && Legal(rule, q, run, count)
    ensures FullExceptLast(Batches(rule, q, run, count), count)
    decreases |run|
  {
    if run != [] {
      var next := Do(rule, q, run[0], count);
      DoBalanced(rule, q, run[0], count);
      var rest := Batches(rule, next, run[1..], count);
      BatchesAreFull(rule, next, run[1..], count);
      if run[0].DoGet? {
        var batch := q.entries[q.delivered..next.delivered];
        if |batch| < count {
          NothingAfterShortBatch(rule, next, run[1..], count);
        }
        assert FullExceptLast([batch] + rest, count);
      } else {
        assert [] + rest == rest;
      }
    }
  }

  /** In every interleaving, a batch that is not full, an empty one among them, means that the whole list
      was delivered. */
  lemma {:induction false} ShortBatchIsLast(rule: Rule, q: Queue, run: seq<QueueStep>, count: positive, i: nat)
    requires Counted(rule) && Balanced(rule, q) && Legal(rule, q, run, count)
    requires i < |Batches(rule, q, run, count)| && |Batches(rule, q, run, count)[i]| < count
    ensures After(rule, q, run, count).delivered == |Listed(rule, q.entries, q.todo)|
    decreases |run|
  {
    var next := Do(rule, q, run[0], count);
    DoBalanced(rule, q, run[0], count);
    assert Listed(rule, q.entries, q.todo) == Listed(rule, next.entries, next.todo);
    var rest := Batches(rule, next, run[1..], count);
    if !run[0].DoGet? {
      assert [] + rest == rest;
      ShortBatchIsLast(rule, next, run[1..], count, i);
    } else if i > 0 {
      ShortBatchIsLast(rule, next, run[1..], count, i - 1);
    } else {
      NothingAfterShortBatch(rule, next, run[1..], count);
    }
  }

  // ----- exactly when the credits match the list -----

  /** The producer alone, from a given state to its end. */
  ghost function RunToEnd(rule: Rule, q: Queue): (end: Queue)
    requires !q.done
    ensures end.done && end.entries == Listed(rule, q.entries, q.todo) && end.delivered == q.delivered
    decreases |q.todo|, q.owed
  {
    if q.owed then RunToEnd(rule, Credit(rule, q))
    else if q.todo == [] then Finish(rule, q)
    else RunToEnd(rule, HashNext(rule, q))
  }

  ghost predicate AllCredited(rule: Rule, sources: seq<Source>) {
    var end := RunToEnd(rule, Start(sources));
    end.credits == |end.entries|
  }

  lemma {:induction false} RunToEndBalanced(rule: Rule, q: Queue)
    requires Counted(rule) && Balanced(rule, q) && !q.done
    ensures Balanced(rule, RunToEnd(rule, q))
    decreases |q.todo|, q.owed
  {
    if q.owed {
      DoBalanced(rule, q, DoCredit, 0);
      RunToEndBalanced(rule, Credit(rule, q));
    } else if q.todo == [] {
      FinishBalanced(rule, q);
    } else {
      HashNextBalanced(rule, q);
      RunToEndBalanced(rule, HashNext(rule, q));
    }
  }

  /** Two images with one hash are enough to lose an entry when duplicates are kept and credits come in groups. */
  lemma DuplicatesLoseCredit(rule: Rule, h: ExifHash, path: Path)
    requires !Counted(rule)
    ensures !AllCredited(rule, [Source(path, Some(h)), Source(path, Some(h))])
  {
    var source := Source(path, Some(h));
    var q0 := Start([source, source]);
    var e := Entry(h, path);
    var q1 := HashNext(rule, q0);
    HashSetSnoc([], e);
    assert q1.entries == [e] && HashSet([e]) == {h};
    assert 1 % rule.threshold == 1;
    assert q1 == q0.(todo := [source], entries := [e]);
    var q2 := HashNext(rule, q1);
    HashSetSnoc([e], e);
    assert q2.entries == [e, e] && HashSet([e, e]) == {h};
    assert RunToEnd(rule, q0) == RunToEnd(rule, q1) == RunToEnd(rule, q2) == Finish(rule, q2);
  }

  /** Credits match the list for every list of paths if and only if duplicates are dropped or every append
      is credited by itself. */
  lemma CreditsMatchExactly(rule: Rule)
    ensures Counted(rule) <==> forall sources :: AllCredited(rule, sources)
  {
    if Counted(rule) {
      forall sources
        ensures AllCredited(rule, sources)
      {
        RunToEndBalanced(rule, Start(sources));
      }
    } else {
      var h := ExifHash(0, 0, 0, 0, 0);
      DuplicatesLoseCredit(rule, h, []);
    }
  }
}
