// The hasher as it is: a linked list that one thread extends, another consumes and a third walks.
module ExifHasherList {
  import opened Codec
  import opened Entries
  import opened Hasher

  class Node {
    var next: Node?
    const entry: Entry

    constructor (entry: Entry)
      ensures this.entry == entry && next == null
    {
      this.entry := entry;
      next := null;
    }
  }

  /** One turn of the producer's loop. */
  ghost function Turn(rule: Rule, q: Queue): Queue
    requires CanHash(q)
  {
    var next := HashNext(rule, q);
    if next.owed then Credit(rule, next) else next
  }

  /** All turns of the producer's loop. */
  ghost function Turns(rule: Rule, q: Queue): (end: Queue)
    requires !q.owed && !q.done
    ensures end.todo == [] && !end.owed && !end.done
    decreases |q.todo|
  {
    if q.todo == [] then q else Turns(rule, Turn(rule, q))
  }

  lemma Skips(rule: Rule, q: Queue)
    requires CanHash(q)
    requires q.todo[0].hash.None? || (rule.unique && q.todo[0].hash.value in HashSet(q.entries))
    ensures HashNext(rule, q) == q.(todo := q.todo[1..])
  {
  }

  /** A path that is neither without a hash nor a duplicate to drop is appended. */
  lemma Appends(rule: Rule, q: Queue, e: Entry)
    requires CanHash(q) && q.todo[0] == Source(e.path, Some(e.hash))
    requires !(rule.unique && e.hash in HashSet(q.entries))
    ensures HashSet(q.entries + [e]) == HashSet(q.entries) + {e.hash}
    ensures HashNext(rule, q) == Queue(q.todo[1..], q.entries + [e],
                                       |HashSet(q.entries) + {e.hash}| % rule.threshold == 0,
                                       q.credits, q.delivered, q.done)
  {
    HashSetSnoc(q.entries, e);
  }

  lemma {:induction false} TurnsAreRun(rule: Rule, q: Queue)
    requires !q.owed && !q.done
    ensures RunToEnd(rule, q) == Hasher.Finish(rule, Turns(rule, q))
    decreases |q.todo|
  {
    if q.todo != [] {
      assert RunToEnd(rule, q) == RunToEnd(rule, HashNext(rule, q)) == RunToEnd(rule, Turn(rule, q));
      TurnsAreRun(rule, Turn(rule, q));
    }
  }

  class ExifHasher {
    const dummy: Node
    var tail: Node
    var newEntry: Node
    var newEntryCount: nat
    var done: bool
    var hashes: set<ExifHash>

    /** The nodes of the list, the dummy first. */
    ghost var nodes: seq<Node>
    /** The entries of the nodes after the dummy. */
    ghost var list: seq<Entry>
    /** How many entries `newEntry` has passed. */
    ghost var delivered: nat
    /** The last append completed a multiple of the threshold. */
    ghost var owed: bool

    ghost predicate Linked()
      reads `tail, `nodes, `list, nodes
    {
      && |nodes| == |list| + 1 && nodes[0] == dummy && nodes[|list|] == tail && tail.next == null
      && (forall i, j :: 0 <= i < j < |nodes| ==> nodes[i] != nodes[j])
      && (forall i :: 0 <= i < |list| ==> nodes[i].next == nodes[i + 1] && nodes[i + 1].entry == list[i])
    }

    ghost predicate Valid()
      reads this, nodes
    {
      && Linked()
      && delivered <= |list| && newEntry == nodes[delivered]
      && hashes == HashSet(list)
    }

    /** The queue that this object stands for, with the paths still to come. */
    ghost function State(todo: seq<Source>): Queue
      reads this
    {
      Queue(todo, list, owed, newEntryCount, delivered, done)
    }

    constructor ()
      ensures Valid() && forall todo :: State(todo) == Start(todo)
    {
      var d := new Node(Entry(ExifHash(0, 0, 0, 0, 0), []));
      dummy, tail, newEntry := d, d, d;
      newEntryCount, done, hashes := 0, false, {};
      nodes, list, delivered, owed := [d], [], 0, false;
    }

    /** One turn of the producer's loop, before the lock: the path is skipped, or an entry is appended. */
    method HashPath(rule: Rule, ghost todo: seq<Source>, source: Source) returns (credit: bool)
      requires Valid() && todo != [] && source == todo[0] && CanHash(State(todo))
      modifies this, tail
      ensures Valid() && State(todo[1..]) == HashNext(rule, old(State(todo)))
      ensures credit == owed && forall n :: n in nodes ==> n in old(nodes) || fresh(n)
    {
      credit := false;
      if source.hash.None? {
        Skips(rule, State(todo));
        return;
      }
      var h := source.hash.value;
      if rule.unique && h in hashes {
        Skips(rule, State(todo));
        return;
      }
      Appends(rule, State(todo), Entry(h, source.path));
      credit := Append(rule, Entry(h, source.path));
    }

    /** An entry is appended, and it may complete a group. */
    method Append(rule: Rule, entry: Entry) returns (credit: bool)
      requires Valid() && HashSet(list + [entry]) == hashes + {entry.hash}
      modifies `hashes, `owed, `tail, `nodes, `list, tail
      ensures Valid() && fresh(tail) && nodes == old(nodes) + [tail] && list == old(list) + [entry]
      ensures credit == owed == (|old(hashes) + {entry.hash}| % rule.threshold == 0)
    {
      hashes := hashes + {entry.hash};
      Link(entry);
      credit := |hashes| % rule.threshold == 0;
      owed := credit;
    }

    /** Hangs a new node on the end of the list. */
    method Link(entry: Entry)
      requires Linked()
      modifies `tail, `nodes, `list, tail
      ensures Linked() && fresh(tail) && nodes == old(nodes) + [tail] && list == old(list) + [entry]
    {
      var node := new Node(entry);
      tail.next := node;
      tail := node;
      nodes := nodes + [node];
      list := list + [entry];
    }

    /** With the lock held, the producer publishes a group of credits. */
    method AddCredits(rule: Rule, ghost todo: seq<Source>)
      requires Valid() && owed
      modifies this
      ensures Valid() && nodes == old(nodes) && list == old(list) && State(todo) == Credit(rule, old(State(todo)))
    {
      newEntryCount := newEntryCount + rule.threshold;
      owed := false;
    }

    /** With the lock held, the producer publishes what is left and says that it is done. */
    method Finish(rule: Rule)
      requires Valid() && CanFinish(State([]))
      modifies this
      ensures Valid() && nodes == old(nodes) && list == old(list) && State([]) == Hasher.Finish(rule, old(State([])))
    {
      newEntryCount := newEntryCount + |hashes| % rule.threshold;
      done := true;
    }

    /** The consumer's call, from the moment at which its wait is over. The batch starts at the node returned.
        The list must hold the entries for which there are credits; `CreditsBound` says when it does. */
    method Get(ghost todo: seq<Source>, count: nat) returns (begin: Node?, taken: nat)
      requires Valid() && CanTake(State(todo), count) && delivered + TakeCount(State(todo), count) <= |list|
      modifies `newEntryCount, `newEntry, `delivered
      ensures Valid() && taken == TakeCount(old(State(todo)), count) && State(todo) == Take(old(State(todo)), count)
      ensures taken > 0 ==> begin == nodes[delivered - taken + 1] && newEntry == nodes[delivered]
    {
      taken := if count <= newEntryCount then count else newEntryCount;
      newEntryCount := newEntryCount - taken;
      begin := newEntry.next;
      for i := 0 to taken
        invariant Linked() && newEntryCount == old(newEntryCount) - taken
        invariant delivered == old(delivered) + i && delivered + (taken - i) <= |list|
        invariant newEntry == nodes[delivered]
      {
        assert nodes[delivered].next == nodes[delivered + 1];
        newEntry := newEntry.next;
        delivered := delivered + 1;
      }
    }

    /** The producer's thread, over a list of paths. */
    method Run(rule: Rule, sources: seq<Source>)
      requires Valid() && !done && !owed
      modifies this, nodes
      ensures Valid() && State([]) == RunToEnd(rule, old(State(sources)))
    {
      ghost var start, first := State(sources), nodes;
      TurnsAreRun(rule, start);
      for i := 0 to |sources|
        invariant Valid() && !done && !owed
        invariant Turns(rule, State(sources[i..])) == Turns(rule, start)
        invariant forall n :: n in nodes ==> n in first || fresh(n)
      {
        assert nodes[|list|] == tail && tail in nodes;
        TurnOnce(rule, sources[i..], sources[i]);
        assert sources[i..][1..] == sources[i + 1..];
      }
      assert sources[|sources|..] == [];
      Finish(rule);
    }

    /** One turn of the loop: a path, and the credits if a group is complete. */
    method TurnOnce(rule: Rule, ghost todo: seq<Source>, source: Source)
      requires Valid() && todo != [] && source == todo[0] && CanHash(State(todo))
      modifies this, tail
      ensures Valid() && State(todo[1..]) == Turn(rule, old(State(todo)))
      ensures !done && !owed && forall n :: n in nodes ==> n in old(nodes) || fresh(n)
    {
      var credit := HashPath(rule, todo, source);
      if credit {
        AddCredits(rule, todo[1..]);
      }
    }
  }
}
