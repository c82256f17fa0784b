/** Why seven buffers are enough for seven slots. */
module RxPool {

  /** The slots in use hold distinct blocks, and exactly the blocks that are not free. */
  ghost predicate Owned<T>(slots: seq<T>, none: T, free: set<T>, blocks: seq<T>) {
    && (forall i, j :: 0 <= i < j < |blocks| ==> blocks[i] != blocks[j])
    && none !in blocks
    && (forall b :: b in free ==> b in blocks)
    && (forall i :: 0 <= i < |slots| && slots[i] != none ==> slots[i] in blocks && slots[i] !in free)
    && (forall i, j :: 0 <= i < j < |slots| && slots[i] != none ==> slots[i] != slots[j])
    && (forall b :: b in blocks && b !in free ==> b in slots)
  }

  lemma {:induction false} ElementsAtMost<T>(s: seq<T>)
    ensures |set x | x in s| <= |s|
  {
    if s != [] {
      ElementsAtMost(s[1..]);
      assert (set x | x in s) == (set x | x in s[1..]) + {s[0]};
    }
  }

  lemma {:induction false} DistinctElements<T>(s: seq<T>)
    requires forall i, j :: 0 <= i < j < |s| ==> s[i] != s[j]
    ensures |set x | x in s| == |s|
  {
    if s != [] {
      DistinctElements(s[1..]);
      assert (set x | x in s) == (set x | x in s[1..]) + {s[0]};
      assert s[0] !in s[1..];
    }
  }

  lemma SubsetAtMost<T>(a: set<T>, b: set<T>)
    requires a <= b
    ensures |a| <= |b|
  {
    assert b == a + (b - a);
    assert |b| == |a| + |b - a|;
  }

  /** With as many blocks as slots, an empty slot leaves a block free: allocation never fails. */
  lemma NeverExhausted<T>(slots: seq<T>, none: T, free: set<T>, blocks: seq<T>, i: nat)
    requires Owned(slots, none, free, blocks) && |slots| == |blocks|
    requires i < |slots| && slots[i] == none
    ensures free != {}
  {
    if free == {} {
      var others := slots[..i] + slots[i + 1..];
      forall b | b in blocks ensures b in others {
        var j :| 0 <= j < |slots| && slots[j] == b;
        assert others[if j < i then j else j - 1] == b;
      }
      DistinctElements(blocks);
      ElementsAtMost(others);
      SubsetAtMost(set b | b in blocks, set b | b in others);
    }
  }

  lemma OwnedTake<T>(slots: seq<T>, none: T, free: set<T>, blocks: seq<T>, i: nat, b: T)
    requires Owned(slots, none, free, blocks)
    requires i < |slots| && slots[i] == none && b in free
    ensures Owned(slots[i := b], none, free - {b}, blocks)
  {
    var taken := slots[i := b];
    forall c | c in blocks && c !in free - {b} ensures c in taken {
      if c == b {
        assert taken[i] == b;
      } else {
        var j :| 0 <= j < |slots| && slots[j] == c;
        assert taken[j] == c;
      }
    }
  }

  lemma OwnedReturn<T>(slots: seq<T>, none: T, free: set<T>, blocks: seq<T>, i: nat)
    requires Owned(slots, none, free, blocks)
    requires i < |slots| && slots[i] != none
    ensures Owned(slots[i := none], none, free + {slots[i]}, blocks)
  {
    var left := slots[i := none];
    forall c | c in blocks && c !in free + {slots[i]} ensures c in left {
      var j :| 0 <= j < |slots| && slots[j] == c;
      assert left[j] == c;
    }
  }

  lemma InitiallyOwned<T>(slots: seq<T>, none: T, free: set<T>, blocks: seq<T>)
    requires forall i, j :: 0 <= i < j < |blocks| ==> blocks[i] != blocks[j]
    requires none !in blocks && (forall i :: 0 <= i < |slots| ==> slots[i] == none)
    requires forall b :: b in free <==> b in blocks
    ensures Owned(slots, none, free, blocks)
  {
  }

  /** With every slot empty, every block is back in the pool. */
  lemma AllReturned<T>(slots: seq<T>, none: T, free: set<T>, blocks: seq<T>)
    requires Owned(slots, none, free, blocks)
    requires forall i :: 0 <= i < |slots| ==> slots[i] == none
    ensures forall b :: b in blocks <==> b in free
  {
  }
}
