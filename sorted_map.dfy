/**
 * The sorted map container: a handle on an AVL tree with the map-like API
 * Get, Set, Delete, Len and AsSlice, and clients that drive it.
 */
module SortedMaps {
  import opened Listing
  import AvlTree

  /** A sorted map: the root of an AVL tree plus the number of entries it holds. */
  class SortedMap<V> {
    var tree: AvlTree.Tree<V>
    var count: nat

    /** The tree is an AVL search tree and `count` is the number of its keys. */
    ghost predicate Valid()
      reads this
    {
      AvlTree.Valid(tree) && count == |AvlTree.Contents(tree)|
    }

    /** The map the container stands for. */
    ghost function Model(): map<Key, V>
      reads this
    {
      AvlTree.Contents(tree)
    }

    /** A new map is empty. */
    constructor ()
      ensures Valid() && Model() == map[]
    {
      tree := AvlTree.Nil;
      count := 0;
    }

    /** The value stored under `k`, or `None` when `k` is absent. */
    method Get(k: Key) returns (r: Option<V>)
      requires Valid()
      ensures r == Lookup(Model(), k)
    {
      r := AvlTree.Find(tree, k);
    }

    /** Store `v` under `k`, replacing any earlier value. */
    method Set(k: Key, v: V)
      requires Valid()
      modifies this
      ensures Valid() && Model() == old(Model())[k := v]
    {
      var found := AvlTree.Find(tree, k);
      tree := AvlTree.Insert(tree, k, v);
      if found.None? {
        count := count + 1;
      }
    }

    /**
     * The source's Set as it stands: it takes no value and only looks the key
     * up, so the map is left as it was.
     */
    method SetAsWritten(k: Key)
      requires Valid()
      ensures Valid() && tree == old(tree) && count == old(count)
    {
      var _ := AvlTree.Find(tree, k);
    }

    /** Remove `k` if present; removing an absent key changes nothing. */
    method Delete(k: Key)
      requires Valid()
      modifies this
      ensures Valid() && Model() == old(Model()) - {k}
      ensures k !in old(Model()) ==> AvlTree.Entries(tree) == AvlTree.Entries(old(tree))
    {
      var found := AvlTree.Find(tree, k);
      if found.Some? {
        CardinalityWithout(AvlTree.Contents(tree), k);
        count := count - 1;
      } else {
        AvlTree.RemoveAbsentKeepsEntries(tree, k);
      }
      tree := AvlTree.Remove(tree, k);
    }

    /** The number of entries, which is also the number of nodes in the tree. */
    method Len() returns (n: nat)
      requires Valid()
      ensures n == |Model()| && n == AvlTree.Size(tree)
    {
      n := count;
      AvlTree.SizeIsCardinality(tree);
    }

    /** The entries in increasing key order. */
    method AsSlice() returns (s: seq<Entry<V>>)
      requires Valid()
      ensures StrictlySorted(s) && MapOf(s) == Model()
    {
      s := AvlTree.InOrderSlice(tree, []);
      AvlTree.SliceOfBst(tree);
    }
  }

  /** Removing a present key takes one off the size of a map. */
  lemma CardinalityWithout<V>(m: map<Key, V>, k: Key)
    requires k in m
    ensures |m - {k}| == |m| - 1
  {
    assert (m - {k}).Keys == m.Keys - {k};
  }

  // ---------------------------------------------------------------------------
  // Replaying operations against a reference map
  // ---------------------------------------------------------------------------

  /** One call on the container. */
  datatype Op<V> = GetOp(key: Key) | SetOp(key: Key, value: V) | DeleteOp(key: Key) | LenOp | ListOp

  /** What one call reports back. */
  datatype Answer<V> = Got(found: Option<V>) | Counted(n: nat) | Listed(entries: seq<Entry<V>>) | Done

  /** The effect of one call on a plain map. */
  function Apply<V>(m: map<Key, V>, op: Op<V>): map<Key, V>
  {
    match op
    case SetOp(k, v) => m[k := v]
    case DeleteOp(k) => m - {k}
    case _ => m
  }

  /** The plain map after a sequence of calls starting from the empty map. */
  function Reference<V>(ops: seq<Op<V>>): map<Key, V>
  {
    if ops == [] then map[] else Apply(Reference(ops[..|ops| - 1]), ops[|ops| - 1])
  }

  /** Extending a prefix of the calls by the next call applies that call. */
  lemma ReferenceStep<V>(ops: seq<Op<V>>, i: nat)
    requires i < |ops|
    ensures Reference(ops[..i + 1]) == Apply(Reference(ops[..i]), ops[i])
  {
    assert ops[..i + 1][..i] == ops[..i];
  }

  /** The answer `a` to `op` is the one the plain map `m` gives. */
  predicate Agrees<V(==)>(m: map<Key, V>, op: Op<V>, a: Answer<V>)
  {
    match op
    case GetOp(k) => a == Got(Lookup(m, k))
    case LenOp => a == Counted(|m|)
    case ListOp => a.Listed? && StrictlySorted(a.entries) && MapOf(a.entries) == m
    case _ => a == Done
  }

  /** Perform one call on `sm` and report its answer. */
  method Step<V(==)>(sm: SortedMap<V>, op: Op<V>) returns (a: Answer<V>)
    requires sm.Valid()
    modifies sm
    ensures sm.Valid() && sm.Model() == Apply(old(sm.Model()), op)
    ensures Agrees(old(sm.Model()), op, a)
  {
    match op {
      case GetOp(k) =>
        var r := sm.Get(k);
        a := Got(r);
      case SetOp(k, v) =>
        sm.Set(k, v);
        a := Done;
      case DeleteOp(k) =>
        sm.Delete(k);
        a := Done;
      case LenOp =>
        var n := sm.Len();
        a := Counted(n);
      case ListOp =>
        var s := sm.AsSlice();
        a := Listed(s);
    }
  }

  /** Each recorded answer is the one the plain map gives after the calls before it. */
  predicate AllAgree<V(==)>(ops: seq<Op<V>>, answers: seq<Answer<V>>)
  {
    |answers| <= |ops| &&
    forall j :: 0 <= j < |answers| ==> Agrees(Reference(ops[..j]), ops[j], answers[j])
  }

  /** An agreeing answer to the next call extends a run of agreeing answers. */
  lemma AllAgreeExtend<V>(ops: seq<Op<V>>, answers: seq<Answer<V>>, a: Answer<V>)
    requires AllAgree(ops, answers) && |answers| < |ops|
    requires Agrees(Reference(ops[..|answers|]), ops[|answers|], a)
    ensures AllAgree(ops, answers + [a])
  {
    var extended := answers + [a];
    forall j | 0 <= j < |extended|
      ensures Agrees(Reference(ops[..j]), ops[j], extended[j])
    {
      if j < |answers| {
        assert extended[j] == answers[j];
      }
    }
  }

  /**
   * Run `ops` on a fresh container, recording each answer, and return the
   * final listing. Every answer is the one the plain map gives at that point.
   */
  method Replay<V(==)>(ops: seq<Op<V>>) returns (answers: seq<Answer<V>>, listing: seq<Entry<V>>)
    ensures |answers| == |ops|
    ensures forall i :: 0 <= i < |ops| ==> Agrees(Reference(ops[..i]), ops[i], answers[i])
    ensures StrictlySorted(listing) && MapOf(listing) == Reference(ops)
  {
    var sm := new SortedMap<V>();
    answers := [];
    for i := 0 to |ops|
      invariant sm.Valid() && sm.Model() == Reference(ops[..i])
      invariant |answers| == i && AllAgree(ops, answers)
    {
      var a := Step(sm, ops[i]);
      ReferenceStep(ops, i);
      AllAgreeExtend(ops, answers, a);
      answers := answers + [a];
    }
    assert ops[..|ops|] == ops;
    listing := sm.AsSlice();
  }
}
