/** The base class's table of socket records as values: lookup by id, and what closing by id does. */
module SocketTable {
  import opened Common
  import opened Modem
  import TxWake

  /** Socket ids 0..6, and as many receive buffers. */
  const MAX_SOCKETS: nat := 7

  /** Ids for which there is a slot. */
  predicate HasSlot(id: int) {
    0 <= id < MAX_SOCKETS
  }

  /** How many places the table has. */
  const SOCKET_COUNT: nat := 6

  /** The columns of a table that closing by id looks at; a place without a record has no id. */
  datatype Table = Table(ids: seq<Option<int>>, closed: seq<bool>, tcp: seq<bool>)
  {
    ghost predicate Even() {
      |ids| == |closed| == |tcp|
    }

    /** Row k must be able to receive. */
    ghost predicate Live(k: int)
      requires Even()
    {
      0 <= k < |ids| && tcp[k] && !closed[k] && ids[k].Some? && HasSlot(ids[k].value)
    }

    /** Every record that must be able to receive has a buffer. */
    ghost predicate LiveBuffered<V>(held: map<int, V>)
      requires Even()
    {
      forall k :: Live(k) ==> ids[k].value in held
    }

    /** Whether a close by id does anything: not once the record found saw the remote end close. */
    ghost predicate Closable(id: int)
      requires Even()
    {
      var k := First(ids, Some(id));
      k < |ids| ==> !closed[k]
    }

    ghost function Closing(id: int): seq<Command>
      requires Even()
    {
      if Closable(id) then [SocketClose(id)] else []
    }

    ghost function HeldAfter<V>(held: map<int, V>, id: int): map<int, V>
      requires Even()
    {
      if Closable(id) then held - {id} else held
    }

    /** A close by id that takes the buffer away under a live record: one carries the id, and nothing tells
        the driver that the remote end is gone. */
    ghost predicate Bereaves(id: int)
      requires Even()
    {
      Closable(id) && Carried(id)
    }

    /** A live record carries the id. */
    ghost predicate Carried(id: int)
      requires Even()
    {
      exists k :: Live(k) && ids[k] == Some(id)
    }

    /** The wake-up state after a close by id. */
    ghost function TxAfter<S>(records: seq<S>, tx: TxWake.Tx<S>, id: int): TxWake.Tx<S>
      requires Even() && |records| == |ids|
    {
      var k := First(ids, Some(id));
      if k < |ids| && !closed[k] then TxWake.Step(tx, TxWake.Closed(records[k])) else tx
    }

    lemma TxAfterArmed<S>(records: seq<S>, tx: TxWake.Tx<S>, id: int)
      requires Even() && |records| == |ids| && TxWake.Armed(tx)
      ensures TxWake.Armed(TxAfter(records, tx, id))
    {
      var k := First(ids, Some(id));
      if k < |ids| {
        TxWake.StepArmed(tx, TxWake.Closed(records[k]));
      }
    }

    /** The commands that close the ids below n. */
    ghost function CloseScript(n: nat): seq<Command>
      requires Even()
    {
      if n == 0 then [] else CloseScript(n - 1) + Closing(n - 1)
    }

    /** The script closes exactly the ids in range that no closed record is found under, and does nothing else. */
    lemma {:induction false} CloseScriptIs(n: nat)
      requires Even()
      ensures forall c :: c in CloseScript(n) <==> c.SocketClose? && 0 <= c.id < n && Closable(c.id)
      decreases n
    {
      if n > 0 {
        CloseScriptIs(n - 1);
      }
    }

    /** A close by id keeps every live record's buffer if and only if no live record carries the id, or the
        record found under it is known to be closed. */
    lemma BereavedIff<V>(held: map<int, V>, id: int)
      requires Even() && LiveBuffered(held)
      ensures LiveBuffered(HeldAfter(held, id)) <==> !Bereaves(id)
    {
      if k :| Live(k) && ids[k] == Some(id) && Closable(id) {
        assert ids[k].value !in HeldAfter(held, id);
      }
    }

    /** Giving an id whose slot has a buffer to some rows keeps every live record's buffer. */
    lemma NamedLive<S, V>(records: seq<S>, s: S, id: int, held: map<int, V>)
      requires Even() && |records| == |ids| && LiveBuffered(held) && (HasSlot(id) ==> id in held)
      ensures this.(ids := SetWhere(ids, records, s, Some(id))).LiveBuffered(held)
    {
      var named := this.(ids := SetWhere(ids, records, s, Some(id)));
      forall k | named.Live(k) ensures named.ids[k].value in held {
        assert records[k] != s ==> Live(k);
      }
    }

    /** So does closing a record. */
    lemma ClosedLive<S, V>(records: seq<S>, s: S, held: map<int, V>)
      requires Even() && |records| == |ids| && LiveBuffered(held)
      ensures this.(closed := SetWhere(closed, records, s, true)).LiveBuffered(held)
    {
      var more := this.(closed := SetWhere(closed, records, s, true));
      forall k | more.Live(k) ensures more.ids[k].value in held {
        assert Live(k);
      }
    }

    /** The first place without a record; the number of places if there is none. */
    ghost function Place(): nat {
      First(ids, None)
    }

    /** A new TCP record with this id in the first free place. */
    ghost function Added(id: int): Table
      requires Even() && None in ids
    {
      var k := Place();
      Table(ids[k := Some(id)], closed[k := false], tcp[k := true])
    }

    /** The record found under a new one's id is one before its place. */
    ghost predicate FoundBefore(id: int) {
      First(ids, Some(id)) < Place()
    }

    /** The wake-up state after closing a new record's id: only a record found before it loses a mark. */
    ghost function TxAfterAdded<S>(records: seq<S>, tx: TxWake.Tx<S>, id: int): TxWake.Tx<S>
      requires Even() && |records| == |ids|
    {
      if FoundBefore(id) then TxAfter(records, tx, id) else tx
    }

    /** Closing a new record's id takes the buffer away under another live record. */
    ghost predicate AddedBereaves(id: int)
      requires Even() && None in ids
    {
      Added(id).Closable(id) && Carried(id)
    }

    /** A new record whose slot has a buffer concerns no other live record. */
    lemma AddedLive<V>(id: int, held: map<int, V>)
      requires Even() && None in ids && LiveBuffered(held) && (HasSlot(id) ==> id in held)
      ensures Added(id).LiveBuffered(held)
    {
      forall k | Added(id).Live(k) ensures Added(id).ids[k].value in held {
        assert k != Place() ==> Live(k);
      }
    }

    /** After closing a new record's id and taking it out of the table, every live record has its buffer exactly
        when no other live one had that id, or the record found under it is known to be closed. */
    lemma AddedBereavedIff<V>(id: int, held: map<int, V>)
      requires Even() && None in ids && Added(id).LiveBuffered(held)
      ensures LiveBuffered(Added(id).HeldAfter(held, id)) <==> !AddedBereaves(id)
    {
      forall k | Live(k) ensures ids[k].value in held {
        assert Added(id).Live(k) && Added(id).ids[k] == ids[k];
      }
      if k :| Live(k) && ids[k] == Some(id) && Added(id).Closable(id) {
        assert ids[k].value !in Added(id).HeldAfter(held, id);
      }
    }

    /** A new record's id is found before the place of the next one. */
    lemma FirstStaysFound(id: int)
      requires Even() && None in ids
      ensures Added(id).FoundBefore(id)
    {
      FoundAdded(id);
      var t := Added(id);
      assert t.ids[Place()] == Some(id);
      forall j | 0 <= j <= Place() ensures t.ids[j] != None {
        assert j < Place() ==> t.ids[j] == ids[j];
      }
    }

    /** Naming a new record changes its row only. */
    lemma AddedNamed<S>(records: seq<S>, s: S, id: int)
      requires Even() && |records| == |ids| && None in ids && s !in records
      ensures var t := Added(-1);
              t.(ids := SetWhere(t.ids, records[Place() := s], s, Some(id))) == Added(id)
    {
      var t := Added(-1);
      var named := SetWhere(t.ids, records[Place() := s], s, Some(id));
      forall k | 0 <= k < |ids| ensures named[k] == Added(id).ids[k] {
        assert k != Place() ==> records[Place() := s][k] == records[k];
      }
      assert named == Added(id).ids;
    }

    lemma TxAdded<S>(records: seq<S>, s: S, tx: TxWake.Tx<S>, id: int)
      requires Even() && |records| == |ids| && None in ids && s !in tx.flagged
      ensures Added(id).TxAfter(records[Place() := s], tx, id) == TxAfterAdded(records, tx, id)
    {
      FoundAdded(id);
      assert tx.flagged - {s} == tx.flagged;
    }

    /** The record under a new one's id is the one found before the free place, if there is one, and else the
        new one itself. */
    lemma FoundAdded(id: int)
      requires Even() && None in ids
      ensures First(Added(id).ids, Some(id)) == if FoundBefore(id) then First(ids, Some(id)) else Place()
      ensures Added(id).Closable(id) <==> (FoundBefore(id) ==> Closable(id))
    {
      var k, j := Place(), First(ids, Some(id));
      assert Added(id).ids[k] == Some(id);
      assert j < k ==> Added(id).ids[j] == Some(id);
    }
  }

  /** A column with v in every row of record s. */
  ghost function SetWhere<S, T>(column: seq<T>, records: seq<S>, s: S, v: T): seq<T>
    requires |column| == |records|
  {
    seq(|column|, k requires 0 <= k < |column| => if records[k] == s then v else column[k])
  }

  ghost predicate FirstAt<T>(column: seq<T>, v: T, k: nat) {
    k <= |column| && (k < |column| ==> column[k] == v) && forall j :: 0 <= j < k ==> column[j] != v
  }

  lemma {:induction false} FirstExists<T>(column: seq<T>, v: T)
    ensures exists k :: FirstAt(column, v, k)
  {
    if column == [] {
      assert FirstAt(column, v, 0);
    } else {
      var n := |column| - 1;
      FirstExists(column[..n], v);
      var k: nat :| FirstAt(column[..n], v, k);
      assert FirstAt(column, v, if k < n || column[n] == v then k else n + 1);
    }
  }

  /** The place of the first match; the length if there is none. */
  ghost function First<T>(column: seq<T>, v: T): (k: nat)
    ensures k <= |column| && (k < |column| ==> column[k] == v)
    ensures forall j :: 0 <= j < k ==> column[j] != v
  {
    FirstExists(column, v);
    var k :| FirstAt(column, v, k);
    k
  }

  /** A session opened, closed by its id, and a second one opened under the same id. The first record stays
      in the table, live but without a buffer, and it is the one found under the id. */
  lemma TwoSessions<V>(t: Table, held: map<int, V>, id: int, v: V)
    requires t.Even() && HasSlot(id) && Some(id) !in t.ids && None in t.ids && None in t.Added(id).ids
    ensures var t1 := t.Added(id);
            var held1 := t1.HeldAfter(held[id := v], id);
            var t2 := t1.Added(id);
            && t1.Live(t.Place()) && t1.Bereaves(id) && id !in held1 && !t1.LiveBuffered(held1)
            && First(t2.ids, Some(id)) == t.Place() < t1.Place()
  {
    var t1 := t.Added(id);
    t.FoundAdded(id);
    t1.FoundAdded(id);
    assert t1.Live(t.Place());
    assert t1.ids[t.Place()] != None;
  }

  /** Ids below n lead to records that are closed, or to none. */
  ghost predicate ClosedBelow(ids: seq<Option<int>>, closed: seq<bool>, n: nat)
    requires |ids| == |closed|
  {
    forall i :: 0 <= i < n ==> FoundClosed(ids, closed, i)
  }

  ghost predicate FoundClosed(ids: seq<Option<int>>, closed: seq<bool>, id: int)
    requires |ids| == |closed|
  {
    var k := First(ids, Some(id));
    k < |ids| ==> closed[k]
  }

  /** Row k holds the record a sweep of the ids below n finds. */
  ghost predicate Swept<S>(records: seq<S>, ids: seq<Option<int>>, k: nat, n: nat)
    requires |records| == |ids| && k < |ids|
  {
    ids[k].Some? && 0 <= ids[k].value < n && First(ids, ids[k]) < |ids| && records[First(ids, ids[k])] == records[k]
  }

  /** From one closed column to the next, only rows found under ids below n have been closed, and none
      reopened. */
  ghost predicate OnlySwept<S>(records: seq<S>, ids: seq<Option<int>>, before: seq<bool>, after: seq<bool>, n: nat)
    requires |records| == |ids| == |before| == |after|
  {
    forall k :: 0 <= k < |ids| && after[k] != before[k] ==> after[k] && Swept(records, ids, k, n)
  }

  /** Sweeping one more id: the record found under it has been closed, or nothing has changed. */
  lemma SweptOne<S>(records: seq<S>, ids: seq<Option<int>>, before: seq<bool>, after: seq<bool>, id: nat, s: S,
                    ok: bool)
    requires |records| == |ids| == |before| == |after| && OnlySwept(records, ids, before, after, id)
    requires First(ids, Some(id)) < |ids| && records[First(ids, Some(id))] == s
    requires forall k :: 0 <= k < |ids| && records[k] == s ==> ids[k] == Some(id) && (!ok ==> !after[k])
    ensures var next := SetWhere(after, records, s, ok);
            && OnlySwept(records, ids, before, next, id + 1)
            && (ClosedBelow(ids, next, id + 1) <==> ClosedBelow(ids, after, id) && ok)
            && (forall i :: 0 <= i < id ==> (FoundClosed(ids, next, i) <==> FoundClosed(ids, after, i)))
            && (FoundClosed(ids, next, id) <==> ok)
  {
    var next := SetWhere(after, records, s, ok);
    forall i | 0 <= i < id ensures FoundClosed(ids, next, i) <==> FoundClosed(ids, after, i) {
      var k := First(ids, Some(i));
      assert k < |ids| ==> records[k] != s;
    }
    assert FoundClosed(ids, next, id) <==> ok;
  }

  lemma SweptNone<S>(records: seq<S>, ids: seq<Option<int>>, before: seq<bool>, after: seq<bool>, id: nat)
    requires |records| == |ids| == |before| == |after| && OnlySwept(records, ids, before, after, id)
    requires Some(id) !in ids
    ensures OnlySwept(records, ids, before, after, id + 1)
    ensures ClosedBelow(ids, after, id + 1) <==> ClosedBelow(ids, after, id)
  {
    assert FoundClosed(ids, after, id);
  }

  /** From place from on, the close of an id nobody tracks failed without a device error. */
  ghost predicate StrayIn(ids: seq<Option<int>>, failures: seq<CloseFailure>, from: nat) {
    exists k :: from <= k < |failures| && Stray(ids, failures[k])
  }

  ghost predicate Stray(ids: seq<Option<int>>, f: CloseFailure) {
    !f.cme && Some(f.id) !in ids
  }

  lemma StrayMore(ids: seq<Option<int>>, failures: seq<CloseFailure>, f: CloseFailure, from: nat)
    requires from <= |failures|
    ensures StrayIn(ids, failures + [f], from) <==> StrayIn(ids, failures, from) || Stray(ids, f)
  {
    var more := failures + [f];
    if k :| from <= k < |failures| && Stray(ids, failures[k]) {
      assert more[k] == failures[k];
    }
    assert more[|failures|] == f;
  }

  /** From place from on, a close of this id failed. */
  ghost predicate FailedIn(failures: seq<CloseFailure>, from: nat, id: int) {
    exists k :: from <= k < |failures| && failures[k].id == id
  }

  /** After a sweep of the ids below n, the record found under a tracked one is closed exactly when it was before
      or its close did not fail. */
  ghost predicate SweptRight(ids: seq<Option<int>>, before: seq<bool>, after: seq<bool>, failures: seq<CloseFailure>,
                             from: nat, n: nat)
    requires |ids| == |before| == |after|
  {
    && (forall k :: from <= k < |failures| ==> failures[k].id < n)
    && forall i :: 0 <= i < n && Some(i) in ids ==>
         (FoundClosed(ids, after, i) <==> FoundClosed(ids, before, i) || !FailedIn(failures, from, i))
  }

  /** One more id: its close failed, and then nothing is marked, or it did not, and then its record is. */
  lemma SweptRightOn<S>(records: seq<S>, ids: seq<Option<int>>, before: seq<bool>, after: seq<bool>, next: seq<bool>,
                        f0: seq<CloseFailure>, f1: seq<CloseFailure>, from: nat, id: nat)
    requires |records| == |ids| == |before| == |after| == |next| && from <= |f0|
    requires OnlySwept(records, ids, before, after, id) && SweptRight(ids, before, after, f0, from, id)
    requires f1 == f0 || (|f1| == |f0| + 1 && f0 == f1[..|f0|] && f1[|f0|].id == id)
    requires forall i :: 0 <= i < id ==> (FoundClosed(ids, next, i) <==> FoundClosed(ids, after, i))
    requires Some(id) in ids ==> (FoundClosed(ids, next, id) <==> FoundClosed(ids, after, id) || f1 == f0)
    requires Some(id) in ids && FoundClosed(ids, after, id) ==> f1 == f0
    ensures SweptRight(ids, before, next, f1, from, id + 1)
  {
    forall i | 0 <= i <= id ensures FailedIn(f1, from, i) <==> (if i < id then FailedIn(f0, from, i) else f1 != f0) {
      if k :| from <= k < |f0| && f0[k].id == i {
        assert f1[k].id == i;
      }
      if f1 != f0 && i == id {
        assert f1[|f0|].id == i;
      }
    }
    assert Some(id) in ids ==> (FoundClosed(ids, after, id) <==> FoundClosed(ids, before, id));
  }
}
