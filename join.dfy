/** HashEquiJoin: a build pass that groups the left (outer) child's tuples by their join field,
    then a probe state machine that walks the right (inner) child and emits, for each right tuple,
    every left tuple with the same join value, concatenated with it. The children are modelled as
    the sequences of tuples they produce; the right child keeps a cursor. */
module Join {
  import opened Basics

  /** Predicate.Op. The hash join probes by key equality whatever the operator is. */
  datatype PredicateOp = Equals | GreaterThan | LessThan | LessThanOrEq | GreaterThanOrEq | Like | NotEquals

  /** JoinPredicate: the join field of a left tuple, the operator and the join field of a right
      tuple. */
  datatype JoinPredicate = JoinPredicate(field1: nat, op: PredicateOp, field2: nat)

  /** Every tuple has the given field. */
  predicate HasField(ts: seq<Tuple>, f: nat) {
    forall i | 0 <= i < |ts| :: f < |ts[i]|
  }

  /** The tuples of ts whose field f equals k, in their order in ts. */
  function Matching(ts: seq<Tuple>, f: nat, k: Field): (r: seq<Tuple>)
    requires HasField(ts, f)
    ensures forall t | t in r :: t in ts && t[f] == k
    decreases |ts|
  {
    if ts == [] then []
    else
      var front, last := ts[..|ts| - 1], ts[|ts| - 1];
      Matching(front, f, k) + (if last[f] == k then [last] else [])
  }

  /** Every tuple of ts with field f equal to k is in Matching(ts, f, k). */
  lemma {:induction false} MatchingComplete(ts: seq<Tuple>, f: nat, k: Field, i: nat)
    requires HasField(ts, f) && i < |ts| && ts[i][f] == k
    ensures ts[i] in Matching(ts, f, k)
    decreases |ts|
  {
    var front := ts[..|ts| - 1];
    if i < |ts| - 1 {
      MatchingComplete(front, f, k, i);
    }
  }

  /** The hash table open builds from the left tuples (lines 62-71): each tuple is appended to the
      list of its join value, the list being created on first use. */
  function Build(ts: seq<Tuple>, f: nat): map<Field, seq<Tuple>>
    requires HasField(ts, f)
    decreases |ts|
  {
    if ts == [] then map[]
    else
      var m := Build(ts[..|ts| - 1], f);
      var last := ts[|ts| - 1];
      var k := last[f];
      m[k := (if k in m then m[k] else []) + [last]]
  }

  /** The hash table holds, under each join value, exactly the left tuples with that value in
      their order, and no other keys. */
  lemma {:induction false} BuildSpec(ts: seq<Tuple>, f: nat)
    requires HasField(ts, f)
    ensures forall k :: k in Build(ts, f) <==> Matching(ts, f, k) != []
    ensures forall k | k in Build(ts, f) :: Build(ts, f)[k] == Matching(ts, f, k)
    decreases |ts|
  {
    if ts != [] {
      var front := ts[..|ts| - 1];
      BuildSpec(front, f);
    }
  }

  /** The list the probe iterates for a join value: the bucket, or nothing for a missing key. */
  function Lookup(m: map<Field, seq<Tuple>>, k: Field): seq<Tuple> {
    if k in m then m[k] else []
  }

  /** The output tuples of one right tuple r paired with the left tuples ls, in order: each is the
      left tuple's fields followed by r's (lines 123-132). */
  function Pairs(ls: seq<Tuple>, r: Tuple): (out: seq<Tuple>)
    ensures |out| == |ls|
    ensures forall i | 0 <= i < |ls| :: out[i] == ls[i] + r
    decreases |ls|
  {
    if ls == [] then [] else [ls[0] + r] + Pairs(ls[1..], r)
  }

  /** The outputs of probing the hash table m with the right tuples rs, in order: each right tuple
      with all its bucket, a right tuple without a bucket with nothing. */
  function Probed(m: map<Field, seq<Tuple>>, rs: seq<Tuple>, f2: nat): seq<Tuple>
    requires HasField(rs, f2)
    decreases |rs|
  {
    if rs == [] then [] else Pairs(Lookup(m, rs[0][f2]), rs[0]) + Probed(m, rs[1..], f2)
  }

  /** The equi-join as a nested-loops join: for each right tuple in order, each left tuple with an
      equal join field in order, concatenated. */
  function EquiJoin(left: seq<Tuple>, right: seq<Tuple>, p: JoinPredicate): seq<Tuple>
    requires HasField(left, p.field1) && HasField(right, p.field2)
    decreases |right|
  {
    if right == [] then []
    else Pairs(Matching(left, p.field1, right[0][p.field2]), right[0]) + EquiJoin(left, right[1..], p)
  }

  /** Probing the table built from the left tuples produces the nested-loops equi-join. */
  lemma {:induction false} ProbeBuiltIsEquiJoin(left: seq<Tuple>, right: seq<Tuple>, p: JoinPredicate)
    requires HasField(left, p.field1) && HasField(right, p.field2)
    ensures Probed(Build(left, p.field1), right, p.field2) == EquiJoin(left, right, p)
    decreases |right|
  {
    if right != [] {
      BuildSpec(left, p.field1);
      ProbeBuiltIsEquiJoin(left, right[1..], p);
    }
  }

  /** An output of the equi-join is a left tuple followed by a right tuple whose join fields are
      equal, and every such pair is an output. */
  lemma {:induction false} EquiJoinMembers(left: seq<Tuple>, right: seq<Tuple>, p: JoinPredicate, t: Tuple)
    requires HasField(left, p.field1) && HasField(right, p.field2)
    ensures t in EquiJoin(left, right, p) <==>
            exists i, j | 0 <= i < |left| && 0 <= j < |right| ::
              left[i][p.field1] == right[j][p.field2] && t == left[i] + right[j]
    decreases |right|
  {
    if right != [] {
      EquiJoinMembers(left, right[1..], p, t);
      var r := right[0];
      var ms := Matching(left, p.field1, r[p.field2]);
      var ps := Pairs(ms, r);
      if t in ps {
        var n :| 0 <= n < |ps| && ps[n] == t;
        var l := ms[n];
        assert l in ms;
        var i :| 0 <= i < |left| && left[i] == l;
        assert left[i][p.field1] == right[0][p.field2] && t == left[i] + right[0];
      }
      if exists i, j | 0 <= i < |left| && 0 <= j < |right| :: left[i][p.field1] == right[j][p.field2] && t == left[i] + right[j] {
        var i, j :| 0 <= i < |left| && 0 <= j < |right| && left[i][p.field1] == right[j][p.field2] && t == left[i] + right[j];
        if j == 0 {
          MatchingComplete(left, p.field1, r[p.field2], i);
          var n :| 0 <= n < |ms| && ms[n] == left[i];
          assert ps[n] == t;
        } else {
          assert right[1..][j - 1] == right[j];
        }
      }
    }
  }

  /** The outputs still to come from a probe state: the rest ls of the current right tuple's
      bucket paired with it (when there is a current right tuple t2), then the probe of the right
      tuples rs not handed out yet. */
  function Outputs(t2: Option<Tuple>, ls: seq<Tuple>, m: map<Field, seq<Tuple>>, rs: seq<Tuple>, f2: nat): seq<Tuple>
    requires HasField(rs, f2)
  {
    (if t2.Some? then Pairs(ls, t2.value) else []) + Probed(m, rs, f2)
  }

  /** Lines 114-120: taking the next right tuple and looking up its bucket (dropping the tuple
      when there is none) keeps the outputs to come. */
  lemma ProbeStep(ls: seq<Tuple>, m: map<Field, seq<Tuple>>, rs: seq<Tuple>, f2: nat)
    requires HasField(rs, f2) && rs != []
    ensures var k := rs[0][f2];
            Outputs(None, ls, m, rs, f2) ==
            if k in m then Outputs(Some(rs[0]), m[k], m, rs[1..], f2) else Outputs(None, ls, m, rs[1..], f2)
  {
  }

  /** Lines 122-133: returning the next left tuple of the bucket, merged with t2, consumes the
      first output. */
  lemma EmitStep(t: Tuple, ls: seq<Tuple>, m: map<Field, seq<Tuple>>, rs: seq<Tuple>, f2: nat)
    requires HasField(rs, f2) && ls != []
    ensures Outputs(Some(t), ls, m, rs, f2) == [ls[0] + t] + Outputs(Some(t), ls[1..], m, rs, f2)
  {
  }

  /** Lines 134-136: an exhausted bucket is dropped without losing outputs. */
  lemma DropStep(t: Tuple, ls: seq<Tuple>, m: map<Field, seq<Tuple>>, rs: seq<Tuple>, f2: nat)
    requires HasField(rs, f2)
    ensures Outputs(Some(t), [], m, rs, f2) == Outputs(None, ls, m, rs, f2)
  {
  }

  /** Tuple merging in fetchNext (lines 124-132): a tuple with the left tuple's fields in the first
      num1 positions and the right tuple's in the following num2. */
  method MergeTuples(tmp: Tuple, t2: Tuple) returns (merge: Tuple)
    ensures |merge| == |tmp| + |t2|
    ensures forall i | 0 <= i < |tmp| :: merge[i] == tmp[i]
    ensures forall i | 0 <= i < |t2| :: merge[i + |tmp|] == t2[i]
  {
    var num1, num2 := |tmp|, |t2|;
    merge := [];
    for i := 0 to num1
      invariant merge == tmp[..i]
    {
      merge := merge + [tmp[i]];
    }
    for i := 0 to num2
      invariant merge == tmp + t2[..i]
    {
      merge := merge + [t2[i]];
    }
    assert t2[..num2] == t2;
  }

  class HashEquiJoin {
    const p: JoinPredicate
    /** The tuples the left (outer) and right (inner) children produce. */
    const child1: seq<Tuple>
    const child2: seq<Tuple>
    /** How many right tuples child2 has handed out since it was opened or rewound. */
    var pos2: nat
    /** The hash table (the field `map`) from join value to left tuples. */
    var table: map<Field, seq<Tuple>>
    /** The right tuple being probed, or None (Java's null). */
    var t2: Option<Tuple>
    /** What the iterator over t2's bucket (the field `iterator`) has not yet returned. */
    var pending: seq<Tuple>

    /** Both children's tuples have the join fields. */
    ghost predicate WellFormed() {
      HasField(child1, p.field1) && HasField(child2, p.field2)
    }

    ghost predicate Valid()
      reads this
    {
      WellFormed() && pos2 <= |child2|
    }

    /** The outputs the join will still produce: the rest of t2's bucket paired with t2, then the
        probe of the right tuples child2 has not handed out yet. */
    ghost function Remaining(): seq<Tuple>
      requires Valid()
      reads this
    {
      Outputs(t2, pending, table, child2[pos2..], p.field2)
    }

    constructor (p: JoinPredicate, child1: seq<Tuple>, child2: seq<Tuple>)
      requires HasField(child1, p.field1) && HasField(child2, p.field2)
      ensures Valid()
      ensures this.p == p && this.child1 == child1 && this.child2 == child2
      ensures table == map[] && t2 == None && pos2 == 0
    {
      this.p := p;
      this.child1 := child1;
      this.child2 := child2;
      table := map[];
      t2 := None;
      pending := [];
      pos2 := 0;
    }

    /** open: clear the table, fill it from child1, then open child2. The probe state (t2 and the
        pending) is left as it was. */
    method Open()
      requires Valid()
      modifies this
      ensures Valid()
      ensures table == Build(child1, p.field1) && pos2 == 0
      ensures t2 == old(t2) && pending == old(pending)
    {
      table := map[];
      var i := 0;
      while i < |child1|
        invariant i <= |child1|
        invariant table == Build(child1[..i], p.field1)
        invariant t2 == old(t2) && pending == old(pending)
      {
        var tmp := child1[i];
        var field := tmp[p.field1];
        if field !in table {
          table := table[field := []];
        }
        table := table[field := table[field] + [tmp]];
        assert child1[..i + 1][..i] == child1[..i];
        i := i + 1;
      }
      assert child1[..i] == child1;
      pos2 := 0;
    }

    /** After open with no probe pending, the join produces the equi-join of its children. */
    lemma OpenedProducesEquiJoin()
      requires Valid() && table == Build(child1, p.field1) && pos2 == 0 && t2 == None
      ensures Remaining() == EquiJoin(child1, child2, p)
    {
      ProbeBuiltIsEquiJoin(child1, child2, p);
    }

    /** close: empty the table and close the children. */
    method Close()
      requires Valid()
      modifies this
      ensures Valid()
      ensures table == map[]
      ensures pos2 == old(pos2) && t2 == old(t2) && pending == old(pending)
    {
      table := map[];
    }

    /** rewind: rewind child2 only; the table and the probe state are kept, so with no probe
        pending the whole probe is replayed. */
    method Rewind()
      requires Valid()
      modifies this
      ensures Valid()
      ensures pos2 == 0
      ensures table == old(table) && t2 == old(t2) && pending == old(pending)
      ensures t2 == None ==> Remaining() == Probed(table, child2, p.field2)
    {
      pos2 := 0;
    }

    /** Lines 114-120: take the next right tuple from child2 and start on its bucket, or drop it
        when its join value has no bucket. The outputs to come do not change. */
    method ProbeNext()
      requires Valid() && t2 == None && pos2 < |child2|
      modifies this
      ensures Valid() && table == old(table) && pos2 == old(pos2) + 1
      ensures Remaining() == old(Remaining())
    {
      var t := child2[pos2];
      ghost var rs := child2[pos2..];
      ProbeStep(pending, table, rs, p.field2);
      assert rs[0] == t && rs[1..] == child2[pos2 + 1..];
      pos2 := pos2 + 1;
      t2 := Some(t);
      var key := t[p.field2];
      if key in table {
        pending := table[key];
      } else {
        t2 := None;
      }
      assert Remaining() == Outputs(t2, pending, table, rs[1..], p.field2);
    }

    /** The inner loop of fetchNext (lines 110-121): take right tuples until one has a bucket, or
        report that child2 is exhausted. */
    method AdvanceRight() returns (found: bool)
      requires Valid() && t2 == None
      modifies this
      ensures Valid() && table == old(table) && Remaining() == old(Remaining())
      ensures found <==> t2.Some?
      ensures found ==> pos2 > old(pos2)
      ensures !found ==> pos2 == |child2| && Remaining() == []
    {
      ghost var pos0 := pos2;
      while t2 == None
        invariant Valid() && table == old(table) && Remaining() == old(Remaining())
        invariant pos0 <= pos2 && (t2.Some? ==> pos0 < pos2)
        decreases |child2| - pos2
      {
        if pos2 == |child2| {
          return false;
        }
        ProbeNext();
      }
      return true;
    }

    /** Lines 122-133: return the next left tuple of t2's bucket merged with t2; this is the
        first of the outputs to come. */
    method Emit() returns (merge: Tuple)
      requires Valid() && t2.Some? && pending != []
      modifies this
      ensures Valid() && table == old(table) && pos2 == old(pos2) && t2 == old(t2)
      ensures old(Remaining()) == [merge] + Remaining()
    {
      EmitStep(t2.value, pending, table, child2[pos2..], p.field2);
      var tmp := pending[0];
      pending := pending[1..];
      merge := MergeTuples(tmp, t2.value);
      assert merge == tmp + t2.value;
    }

    /** fetchNext: the next output tuple, or None once child2 is exhausted and t2's bucket is
        used up. */
    method FetchNext() returns (r: Option<Tuple>)
      requires Valid()
      modifies this
      ensures Valid()
      ensures table == old(table)
      ensures old(Remaining()) == [] ==> r == None && Remaining() == []
      ensures old(Remaining()) != [] ==> r == Some(old(Remaining())[0]) && Remaining() == old(Remaining())[1..]
    {
      ghost var rest := Remaining();
      assert WellFormed();
      while true
        invariant pos2 <= |child2| && table == old(table) && Remaining() == rest
        decreases |child2| - pos2, if t2.Some? then 1 else 0
      {
        if t2 == None {
          var found := AdvanceRight();
          if !found {
            return None;
          }
        }
        if pending != [] {
          var merge := Emit();
          return Some(merge);
        } else {
          DropStep(t2.value, pending, table, child2[pos2..], p.field2);
          t2 := None;
        }
      }
    }
  }
}
