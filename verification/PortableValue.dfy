// The check that run options can be cloned into the sandbox frame. Values live
// in an object graph that may share and loop; the check walks it depth first
// with the set of objects on the current path.

module PortableValue {
  import opened Prelude

  // Data covers every value without identity: null, undefined, strings,
  // numbers, booleans and big integers. Opaque is a function or a symbol.
  datatype Value = Data | Opaque | Object(ref: nat)

  datatype Node =
    | Array(items: seq<Value>)
    | Bytes
    | Record(entries: seq<(string, Value)>)
    | Exotic                          // an object with some other prototype

  datatype Step = Index(nat) | Key(string)

  datatype Kind = NotCloneable | Cyclic | NotPlain

  datatype Complaint = Complaint(kind: Kind, path: seq<Step>)

  type Heap = map<nat, Node>

  // The children of an object, in the order they are visited.
  function Children(node: Node): seq<(Step, Value)> {
    match node
    case Array(items) => seq(|items|, i requires 0 <= i < |items| => (Index(i), items[i]))
    case Record(entries) => seq(|entries|, i requires 0 <= i < |entries| => (Key(entries[i].0), entries[i].1))
    case _ => []
  }

  predicate InHeap(heap: Heap, value: Value) {
    value.Object? ==> value.ref in heap
  }

  // An object holds a value at a place: an array at an index, a record under a
  // key, nothing else anywhere.
  ghost predicate Place(node: Node, i: nat, step: Step, value: Value) {
    match node
    case Array(items) => i < |items| && step == Index(i) && value == items[i]
    case Record(entries) => i < |entries| && (step, value) == (Key(entries[i].0), entries[i].1)
    case Bytes => false
    case Exotic => false
  }

  // The children are what the object holds, place for place.
  lemma ChildrenArePlaces(node: Node)
    ensures forall i: nat, step, value :: Place(node, i, step, value) <==>
      i < |Children(node)| && Children(node)[i] == (step, value)
    ensures forall i :: 0 <= i < |Children(node)| ==> Place(node, i, Children(node)[i].0, Children(node)[i].1)
  {
  }

  ghost predicate Closed(heap: Heap) {
    forall ref, i: nat, step, value :: ref in heap && Place(heap[ref], i, step, value) ==> InHeap(heap, value)
  }

  lemma ChildrenInHeap(heap: Heap, ref: nat)
    requires Closed(heap) && ref in heap
    ensures forall i :: 0 <= i < |Children(heap[ref])| ==> InHeap(heap, Children(heap[ref])[i].1)
  {
    ChildrenArePlaces(heap[ref]);
  }

  // ---------- the verdict ----------

  // The first complaint in visiting order, if any.
  function Verdict(heap: Heap, value: Value, path: seq<Step>, seen: set<nat>): Option<Complaint>
    requires InHeap(heap, value) && Closed(heap)
    decreases |heap.Keys - seen|, 0, 0
  {
    match value
    case Data => None
    case Opaque => Some(Complaint(NotCloneable, path))
    case Object(ref) =>
      if ref in seen then Some(Complaint(Cyclic, path))
      else if heap[ref].Exotic? then Some(Complaint(NotPlain, path))
      else
        Fewer(heap, ref, seen);
        VerdictFrom(heap, ref, path, seen + {ref}, 0)
  }

  // The verdict on the children of an object from the k-th on.
  function VerdictFrom(heap: Heap, ref: nat, path: seq<Step>, seen: set<nat>, k: nat): Option<Complaint>
    requires ref in heap && Closed(heap)
    requires k <= |Children(heap[ref])|
    decreases |heap.Keys - seen|, 1, |Children(heap[ref])| - k
  {
    var children := Children(heap[ref]);
    ChildrenInHeap(heap, ref);
    if k == |children| then None
    else match Verdict(heap, children[k].1, path + [children[k].0], seen)
      case Some(complaint) => Some(complaint)
      case None => VerdictFrom(heap, ref, path, seen, k + 1)
  }

  lemma Fewer(heap: Heap, ref: nat, seen: set<nat>)
    requires ref in heap && ref !in seen
    ensures |heap.Keys - (seen + {ref})| < |heap.Keys - seen|
  {
    assert heap.Keys - (seen + {ref}) == (heap.Keys - seen) - {ref};
  }

  // ---------- what it decides ----------

  ghost predicate Child(heap: Heap, ref: nat, value: Value) {
    ref in heap && exists i: nat, step :: Place(heap[ref], i, step, value)
  }

  lemma ChildIsListed(heap: Heap, ref: nat, value: Value) returns (i: nat)
    requires Child(heap, ref, value)
    ensures i < |Children(heap[ref])| && Children(heap[ref])[i].1 == value
  {
    ChildrenArePlaces(heap[ref]);
    var at: nat, step :| Place(heap[ref], at, step, value);
    i := at;
  }

  lemma ListedIsChild(heap: Heap, ref: nat, i: nat)
    requires ref in heap && i < |Children(heap[ref])|
    ensures Child(heap, ref, Children(heap[ref])[i].1)
  {
    ChildrenArePlaces(heap[ref]);
  }

  // A walk through objects that starts at a value.
  ghost predicate Walk(heap: Heap, value: Value, walk: seq<nat>) {
    && walk != [] && value == Object(walk[0])
    && forall i :: 0 <= i < |walk| - 1 ==> Child(heap, walk[i], Object(walk[i + 1]))
  }

  // Plain data whose immediate values can be cloned.
  ghost predicate PlainNode(heap: Heap, ref: nat) {
    ref in heap && !heap[ref].Exotic? && !Child(heap, ref, Opaque)
  }

  // Everything reachable is plain, no walk meets an object twice, and none
  // meets an object of `seen`.
  ghost predicate Clean(heap: Heap, value: Value, seen: set<nat>) {
    && !value.Opaque?
    && forall walk: seq<nat> :: Walk(heap, value, walk) ==> CleanWalk(heap, walk, seen)
  }

  ghost predicate CleanWalk(heap: Heap, walk: seq<nat>, seen: set<nat>) {
    && Distinct(walk)
    && (forall i :: 0 <= i < |walk| ==> walk[i] !in seen)
    && (walk != [] ==> PlainNode(heap, walk[|walk| - 1]))
  }

  // A walk from an object is that object followed by a walk from a child.
  lemma WalkExtends(heap: Heap, ref: nat, child: Value, walk: seq<nat>)
    requires Child(heap, ref, child) && Walk(heap, child, walk)
    ensures Walk(heap, Object(ref), [ref] + walk)
  {
    var longer := [ref] + walk;
    forall i | 0 <= i < |longer| - 1 ensures Child(heap, longer[i], Object(longer[i + 1])) {
      if i > 0 {
        assert Child(heap, walk[i - 1], Object(walk[i]));
      }
    }
  }

  lemma CleanPassesToChildren(heap: Heap, ref: nat, child: Value, seen: set<nat>)
    requires Clean(heap, Object(ref), seen) && Child(heap, ref, child)
    ensures Clean(heap, child, seen + {ref})
  {
    hide CleanWalk, Walk;
    StandStill(heap, ref);
    assert CleanWalk(heap, [ref], seen);
    ChildIsCloneable(heap, ref, child, seen);
    forall walk | Walk(heap, child, walk) ensures CleanWalk(heap, walk, seen + {ref}) {
      WalkExtends(heap, ref, child, walk);
      assert CleanWalk(heap, [ref] + walk, seen);
      CleanTail(heap, ref, walk, seen);
    }
  }

  lemma StandStill(heap: Heap, ref: nat)
    ensures Walk(heap, Object(ref), [ref])
  {
  }

  lemma ChildIsCloneable(heap: Heap, ref: nat, child: Value, seen: set<nat>)
    requires CleanWalk(heap, [ref], seen) && Child(heap, ref, child)
    ensures !child.Opaque?
  {
    assert PlainNode(heap, [ref][|[ref]| - 1]);
  }

  lemma CleanTail(heap: Heap, ref: nat, walk: seq<nat>, seen: set<nat>)
    requires CleanWalk(heap, [ref] + walk, seen)
    ensures CleanWalk(heap, walk, seen + {ref})
  {
    hide PlainNode;
    var longer := [ref] + walk;
    assert longer[0] == ref;
    assert forall i :: 0 <= i < |walk| ==> walk[i] == longer[i + 1];
  }

  lemma CleanChildrenSuffice(heap: Heap, ref: nat, seen: set<nat>)
    requires ref in heap && ref !in seen && !heap[ref].Exotic?
    requires forall i :: 0 <= i < |Children(heap[ref])| ==> Clean(heap, Children(heap[ref])[i].1, seen + {ref})
    ensures Clean(heap, Object(ref), seen)
  {
    if Child(heap, ref, Opaque) {
      var i := ChildIsListed(heap, ref, Opaque);
    }
    assert PlainNode(heap, ref);
    forall walk | Walk(heap, Object(ref), walk) ensures CleanWalk(heap, walk, seen) {
      assert walk[0] == ref;
      if |walk| > 1 {
        var rest := walk[1..];
        assert Child(heap, walk[0], Object(walk[0 + 1]));
        var i := ChildIsListed(heap, ref, Object(walk[1]));
        forall j | 0 <= j < |rest| - 1 ensures Child(heap, rest[j], Object(rest[j + 1])) {
          assert Child(heap, walk[j + 1], Object(walk[j + 1 + 1]));
        }
        assert Walk(heap, Object(walk[1]), rest);
        assert CleanWalk(heap, rest, seen + {ref});
        assert walk == [ref] + rest;
      }
    }
  }

  lemma {:induction false} VerdictIsClean(heap: Heap, value: Value, path: seq<Step>, seen: set<nat>)
    requires InHeap(heap, value) && Closed(heap)
    ensures Verdict(heap, value, path, seen).None? <==> Clean(heap, value, seen)
    decreases |heap.Keys - seen|, 0, 0
  {
    if value.Object? {
      var ref := value.ref;
      assert Walk(heap, value, [ref]);
      if ref in seen {
        assert !CleanWalk(heap, [ref], seen) by { assert [ref][0] in seen; }
      } else if heap[ref].Exotic? {
        assert !CleanWalk(heap, [ref], seen) by { assert [ref][|[ref]| - 1] == ref; }
      } else {
        Fewer(heap, ref, seen);
        VerdictFromIsClean(heap, ref, path, seen + {ref}, 0);
        if Clean(heap, value, seen) {
          forall i | 0 <= i < |Children(heap[ref])| ensures Clean(heap, Children(heap[ref])[i].1, seen + {ref}) {
            ListedIsChild(heap, ref, i);
            CleanPassesToChildren(heap, ref, Children(heap[ref])[i].1, seen);
          }
        } else if Verdict(heap, value, path, seen).None? {
          CleanChildrenSuffice(heap, ref, seen);
        }
      }
    }
  }

  lemma {:induction false} VerdictFromIsClean(heap: Heap, ref: nat, path: seq<Step>, seen: set<nat>, k: nat)
    requires ref in heap && Closed(heap)
    requires k <= |Children(heap[ref])|
    ensures VerdictFrom(heap, ref, path, seen, k).None? <==>
      forall i :: k <= i < |Children(heap[ref])| ==> Clean(heap, Children(heap[ref])[i].1, seen)
    decreases |heap.Keys - seen|, 1, |Children(heap[ref])| - k
  {
    var children := Children(heap[ref]);
    ChildrenInHeap(heap, ref);
    if k < |children| {
      VerdictIsClean(heap, children[k].1, path + [children[k].0], seen);
      VerdictFromIsClean(heap, ref, path, seen, k + 1);
    }
  }

  // A value is accepted exactly when everything reachable from it is plain data
  // and no walk from it returns to an object it has left: sharing is allowed,
  // cycles are not.
  lemma AcceptedIff(heap: Heap, value: Value)
    requires InHeap(heap, value) && Closed(heap)
    ensures Verdict(heap, value, [], {}).None? <==>
      && !value.Opaque?
      && forall walk: seq<nat> :: Walk(heap, value, walk) ==> Distinct(walk) && PlainNode(heap, walk[|walk| - 1])
  {
    VerdictIsClean(heap, value, [], {});
    assert forall walk: seq<nat> :: Walk(heap, value, walk) ==>
      (CleanWalk(heap, walk, {}) <==> Distinct(walk) && PlainNode(heap, walk[|walk| - 1]));
  }

  // ---------- complaints are genuine ----------

  // Following the steps from a value leads to what the complaint says, the
  // objects passed on the way counting as seen; whatever is visited before the
  // steps is clean.
  ghost predicate Leads(heap: Heap, value: Value, seen: set<nat>, steps: seq<Step>, kind: Kind)
    decreases |steps|
  {
    if steps == [] then
      match kind
      case NotCloneable => value.Opaque?
      case Cyclic => value.Object? && value.ref in seen
      case NotPlain => value.Object? && value.ref in heap && heap[value.ref].Exotic?
    else
      && value.Object? && value.ref in heap
      && exists i: nat, held ::
           && Place(heap[value.ref], i, steps[0], held)
           && CleanBefore(heap, value.ref, i, seen + {value.ref})
           && Leads(heap, held, seen + {value.ref}, steps[1..], kind)
  }

  ghost predicate CleanBefore(heap: Heap, ref: nat, i: nat, seen: set<nat>)
    requires ref in heap
  {
    forall j: nat, step, held :: j < i && Place(heap[ref], j, step, held) ==> Clean(heap, held, seen)
  }

  lemma {:induction false} ComplaintIsGenuine(heap: Heap, value: Value, path: seq<Step>, seen: set<nat>)
    requires InHeap(heap, value) && Closed(heap)
    requires Verdict(heap, value, path, seen).Some?
    ensures var complaint := Verdict(heap, value, path, seen).value;
      path <= complaint.path && Leads(heap, value, seen, complaint.path[|path|..], complaint.kind)
    decreases |heap.Keys - seen|, 0, 0
  {
    var complaint := Verdict(heap, value, path, seen).value;
    if value.Object? && value.ref !in seen && !heap[value.ref].Exotic? {
      Fewer(heap, value.ref, seen);
      ChildComplaintIsGenuine(heap, value.ref, path, seen, 0);
    } else {
      assert complaint.path[|path|..] == [];
    }
  }

  lemma {:induction false} ChildComplaintIsGenuine(heap: Heap, ref: nat, path: seq<Step>, seen: set<nat>, k: nat)
    requires ref in heap && ref !in seen && Closed(heap)
    requires k <= |Children(heap[ref])|
    requires VerdictFrom(heap, ref, path, seen + {ref}, k).Some?
    requires CleanBefore(heap, ref, k, seen + {ref})
    ensures var complaint := VerdictFrom(heap, ref, path, seen + {ref}, k).value;
      path <= complaint.path && Leads(heap, Object(ref), seen, complaint.path[|path|..], complaint.kind)
    decreases |heap.Keys - (seen + {ref})|, 1, |Children(heap[ref])| - k
  {
    var children := Children(heap[ref]);
    var (step, child) := children[k];
    var path' := path + [step];
    ChildrenInHeap(heap, ref);
    ChildrenArePlaces(heap[ref]);
    VerdictIsClean(heap, child, path', seen + {ref});
    hide Clean;
    if Verdict(heap, child, path', seen + {ref}).Some? {
      ComplaintIsGenuine(heap, child, path', seen + {ref});
      var complaint := Verdict(heap, child, path', seen + {ref}).value;
      var steps := complaint.path[|path|..];
      assert steps[0] == step && steps[1..] == complaint.path[|path'|..];
      assert Place(heap[ref], k, steps[0], child) && Leads(heap, child, seen + {ref}, steps[1..], complaint.kind);
    } else {
      ChildComplaintIsGenuine(heap, ref, path, seen, k + 1);
    }
  }

  // ---------- the recursive check with its path set ----------

  class Checker {
    const heap: Heap
    var seen: set<nat>

    constructor (heap: Heap)
      ensures this.heap == heap && seen == {}
    {
      this.heap := heap;
      seen := {};
    }

    // The path set is restored whenever the check returns normally; a complaint
    // ends the whole check.
    method AssertPortable(value: Value, path: seq<Step>) returns (complaint: Option<Complaint>)
      requires InHeap(heap, value) && Closed(heap)
      modifies this
      ensures complaint == Verdict(heap, value, path, old(seen))
      ensures complaint.None? ==> seen == old(seen)
      decreases |heap.Keys - seen|
    {
      match value {
        case Data => return None;
        case Opaque => return Some(Complaint(NotCloneable, path));
        case Object(ref) =>
          if ref in seen {
            return Some(Complaint(Cyclic, path));
          }
          Fewer(heap, ref, seen);
          seen := seen + {ref};
          if heap[ref].Exotic? {
            return Some(Complaint(NotPlain, path));
          }
          var children := Children(heap[ref]);
          ChildrenInHeap(heap, ref);
          for k := 0 to |children|
            invariant seen == old(seen) + {ref}
            invariant Verdict(heap, value, path, old(seen)) == VerdictFrom(heap, ref, path, seen, k)
          {
            var (step, entry) := children[k];
            complaint := AssertPortable(entry, path + [step]);
            if complaint.Some? {
              return;
            }
          }
          seen := seen - {ref};
          return None;
      }
    }
  }
}
