/** The allocator that gives every entry of a list an identifier for life while its
    position moves. */
module UniqueIds {
  import opened Counting

  datatype Entry = Entry(pos: nat, id: nat)

  /** The positions taken are exactly 0..n-1, and no identifier is taken twice. */
  ghost predicate Tidy(list: seq<Entry>) {
    && (forall e | e in list :: e.pos < |list|)
    && (forall i, j | 0 <= i < j < |list| :: list[i].pos != list[j].pos && list[i].id != list[j].id)
  }

  /** The list seen from outside: ids[p] is the identifier of the entry at p. */
  ghost predicate Shows(list: seq<Entry>, ids: seq<nat>) {
    && |ids| == |list|
    && forall e | e in list :: e.pos < |ids| && ids[e.pos] == e.id
  }

  function Positions(list: seq<Entry>): (r: seq<nat>)
    ensures |r| == |list| && forall i | 0 <= i < |r| :: r[i] == list[i].pos + 1
  {
    seq(|list|, i requires 0 <= i < |list| => list[i].pos + 1)
  }

  /** By pigeonhole every position below n is taken. */
  lemma EveryPositionTaken(list: seq<Entry>, p: nat) returns (i: nat)
    requires Tidy(list) && p < |list|
    ensures i < |list| && list[i].pos == p
  {
    var q := Positions(list);
    Pigeonhole(q, |list|);
    assert p + 1 in q;
    i :| 0 <= i < |q| && q[i] == p + 1;
  }

  function IdList(list: seq<Entry>): (r: seq<nat>)
    ensures |r| == |list| && forall i | 0 <= i < |r| :: r[i] == list[i].id
  {
    seq(|list|, i requires 0 <= i < |list| => list[i].id)
  }

  ghost predicate Uses(list: seq<Entry>, id: nat) {
    exists e :: e in list && e.id == id
  }

  /** By pigeonhole some identifier up to n is free. */
  lemma SomeIdIsFree(list: seq<Entry>)
    ensures exists u: nat :: u <= |list| && !Uses(list, u)
  {
    if forall u: nat | u <= |list| :: Uses(list, u) {
      var q := IdList(list);
      forall u: nat | u <= |list| ensures u in q {
        assert Uses(list, u);
        var e :| e in list && e.id == u;
        var i :| 0 <= i < |list| && list[i] == e;
        assert q[i] == u;
      }
      CoverCountFromZero(q, |list| + 1);
    }
  }

  lemma UsesIs(list: seq<Entry>, ids: seq<nat>, id: nat)
    requires Tidy(list) && Shows(list, ids)
    ensures Uses(list, id) <==> id in ids
  {
    if id in ids {
      var p :| 0 <= p < |ids| && ids[p] == id;
      var i := EveryPositionTaken(list, p);
      assert list[i] in list;
    }
  }

  function ShiftedDown(list: seq<Entry>, pos: nat): (r: seq<Entry>)
    ensures |r| == |list|
    ensures forall i | 0 <= i < |r| ::
              r[i] == if list[i].pos > pos then Entry(list[i].pos - 1, list[i].id) else list[i]
  {
    seq(|list|, i requires 0 <= i < |list| =>
      if list[i].pos > pos then Entry(list[i].pos - 1, list[i].id) else list[i])
  }

  /** Erasing the entry at a position and moving the later ones up by one closes the gap. */
  lemma KillKeepsShape(list: seq<Entry>, ids: seq<nat>, k: nat)
    requires Tidy(list) && Shows(list, ids) && k < |list|
    ensures var pos, rest := list[k].pos, ShiftedDown(list[..k] + list[k + 1..], list[k].pos);
            Tidy(rest) && pos < |ids| && Shows(rest, ids[..pos] + ids[pos + 1..])
  {
    var pos, cut := list[k].pos, list[..k] + list[k + 1..];
    assert list[k] in list;
    forall i | 0 <= i < |cut|
      ensures cut[i] in list && cut[i].pos != pos
    {
      assert cut[i] == list[if i < k then i else i + 1];
    }
    forall i, j | 0 <= i < j < |cut|
      ensures cut[i].pos != cut[j].pos && cut[i].id != cut[j].id
    {
      assert cut[i] == list[if i < k then i else i + 1] && cut[j] == list[if j < k then j else j + 1];
    }
  }

  /** What is left when the first entry at a position is gone and the others have moved. */
  lemma KillResult(list: seq<Entry>, ids: seq<nat>, pos: nat, k: nat, cut: seq<Entry>)
    requires Tidy(list) && Shows(list, ids) && NoDup(ids) && k <= |list|
    requires forall j | 0 <= j < k :: list[j].pos != pos
    requires k < |list| ==> list[k].pos == pos && cut == list[..k] + list[k + 1..]
    requires k == |list| ==> cut == list
    ensures var ids' := if pos < |ids| then ids[..pos] + ids[pos + 1..] else ids;
            Tidy(ShiftedDown(cut, pos)) && Shows(ShiftedDown(cut, pos), ids') && NoDup(ids')
  {
    if k < |list| {
      assert list[k] in list;
      KillKeepsShape(list, ids, k);
    } else {
      if pos < |ids| {
        var i := EveryPositionTaken(list, pos);
      }
      forall i | 0 <= i < |list| ensures list[i].pos <= pos {
        assert list[i] in list;
      }
      assert ShiftedDown(cut, pos) == cut;
    }
  }

  lemma AppendKeepsTidy(list: seq<Entry>, ids: seq<nat>, id: nat)
    requires Tidy(list) && Shows(list, ids) && NoDup(ids) && !Uses(list, id)
    ensures Tidy(list + [Entry(|ids|, id)]) && Shows(list + [Entry(|ids|, id)], ids + [id]) && NoDup(ids + [id])
    ensures forall u: nat :: Uses(list, u) <==> u in ids
  {
    forall u: nat ensures Uses(list, u) <==> u in ids { UsesIs(list, ids, u); }
    hide Uses;
    var list' := list + [Entry(|ids|, id)];
    forall i, j | 0 <= i < j < |list'| ensures list'[i].pos != list'[j].pos && list'[i].id != list'[j].id {
      assert list[i] in list;
      if j == |list| {
        UsesIt(list, i);
      }
    }
  }

  lemma UsesIt(list: seq<Entry>, i: nat)
    requires i < |list|
    ensures Uses(list, list[i].id)
  {
    assert list[i] in list;
  }

  class UniqueIDHandler {
    var idList: seq<Entry>
    ghost var ids: seq<nat>

    ghost predicate Valid()
      reads this
    {
      Tidy(idList) && Shows(idList, ids) && NoDup(ids)
    }

    constructor ()
      ensures Valid() && ids == []
    {
      idList, ids := [], [];
    }

    method Clear()
      modifies this
      ensures Valid() && ids == []
    {
      idList, ids := [], [];
    }

    /** The identifier of the entry at a position. */
    method GetId(pos: nat) returns (id: nat)
      requires Valid() && pos < |ids|
      ensures id == ids[pos]
    {
      ghost var k := EveryPositionTaken(idList, pos);
      for i := 0 to |idList|
        invariant i <= k
      {
        if pos == idList[i].pos {
          assert idList[i] in idList;
          return idList[i].id;
        }
      }
      assert false;
    }

    /** The position of an identifier, the inverse of GetId. */
    method GetPos(id: nat) returns (pos: nat)
      requires Valid() && id in ids
      ensures pos < |ids| && ids[pos] == id
    {
      UsesIs(idList, ids, id);
      ghost var e :| e in idList && e.id == id;
      ghost var k :| 0 <= k < |idList| && idList[k] == e;
      for i := 0 to |idList|
        invariant i <= k
      {
        if id == idList[i].id {
          assert idList[i] in idList;
          return idList[i].pos;
        }
      }
      assert false;
    }

    /** Appends an entry with the least identifier that is free. With the position
        after the last one the list stays tidy. */
    method GenId(pos: nat) returns (id: nat)
      modifies this
      ensures idList == old(idList) + [Entry(pos, id)]
      ensures !Uses(old(idList), id) && forall u: nat | u < id :: Uses(old(idList), u)
      ensures old(Valid()) && pos == |old(ids)| ==> Valid() && ids == old(ids) + [id]
      ensures old(Valid()) && pos == |old(ids)| ==> id !in old(ids) && forall u: nat | u < id :: u in old(ids)
    {
      ghost var before, tidy := idList, Valid() && pos == |ids|;
      for ui := 0 to |idList| + 1
        invariant idList == before && ids == old(ids) && tidy == old(Valid() && pos == |ids|)
        invariant forall u: nat | u < ui :: Uses(before, u)
      {
        var idTaken := false;
        for i := 0 to |idList|
          invariant !idTaken
          invariant forall j | 0 <= j < i :: idList[j].id != ui
        {
          if ui == idList[i].id {
            assert idList[i] in idList;
            idTaken := true;
            break;
          }
        }
        if !idTaken {
          assert !Uses(before, ui);
          idList, ids := idList + [Entry(pos, ui)], ids + [ui];
          if tidy { AppendKeepsTidy(before, old(ids), ui); }
          return ui;
        }
        assert Uses(before, ui);
      }
      SomeIdIsFree(idList);
    }

    /** Erases the entry at a position, if there is one, and closes the gap. */
    method KillByPos(pos: nat)
      requires Valid()
      modifies this
      ensures Valid()
      ensures ids == if pos < |old(ids)| then old(ids)[..pos] + old(ids)[pos + 1..] else old(ids)
    {
      hide *;
      ValidIs();
      var k := |idList|;
      for i := 0 to |idList|
        invariant k == |idList| && idList == old(idList) && ids == old(ids)
        invariant forall j | 0 <= j < i :: idList[j].pos != pos
      {
        if pos == idList[i].pos {
          k := i;
          break;
        }
      }
      if k < |idList| {
        idList := idList[..k] + idList[k + 1..];
      }
      ghost var cut := idList;
      for i := 0 to |idList|
        invariant |idList| == |cut| && ids == old(ids)
        invariant forall j | 0 <= j < i :: idList[j] == ShiftedDown(cut, pos)[j]
        invariant forall j | i <= j < |cut| :: idList[j] == cut[j]
      {
        if idList[i].pos > pos {
          idList := idList[i := Entry(idList[i].pos - 1, idList[i].id)];
        }
      }
      assert idList == ShiftedDown(cut, pos);
      if pos < |ids| {
        ids := ids[..pos] + ids[pos + 1..];
      }
      KillResult(old(idList), old(ids), pos, k, cut);
      ValidIs();
    }

    lemma ValidIs()
      ensures Valid() <==> Tidy(idList) && Shows(idList, ids) && NoDup(ids)
    {
    }
  }

  // ---- Runs ----

  datatype Op = Gen(id: nat) | Kill(pos: nat)

  /** What the methods above promise, as a relation on the lists of identifiers. */
  ghost predicate Step(ids: seq<nat>, op: Op, ids': seq<nat>) {
    match op
    case Gen(id) => ids' == ids + [id] && id !in ids && forall u: nat | u < id :: u in ids
    case Kill(pos) => ids' == if pos < |ids| then ids[..pos] + ids[pos + 1..] else ids
  }

  ghost predicate IsRun(states: seq<seq<nat>>, ops: seq<Op>) {
    && |states| == |ops| + 1 && states[0] == []
    && forall i | 0 <= i < |ops| :: Step(states[i], ops[i], states[i + 1])
  }

  /** Where the entry at p stands after a step, if it survives. */
  function Moved(op: Op, p: nat): nat {
    if op.Kill? && op.pos < p then p - 1 else p
  }

  /** A survivor keeps its identifier, and moves up by one exactly when it followed
      the entry that was deleted. */
  lemma SurvivorKeepsId(ids: seq<nat>, op: Op, ids': seq<nat>, p: nat)
    requires Step(ids, op, ids') && p < |ids| && (op.Kill? ==> op.pos != p)
    ensures Moved(op, p) < |ids'| && ids'[Moved(op, p)] == ids[p]
  {
  }

  lemma KillKeepsEntries(ids: seq<nat>, pos: nat, ids': seq<nat>)
    requires Step(ids, Kill(pos), ids')
    ensures forall id | id in ids' :: id in ids
    ensures NoDup(ids) ==> NoDup(ids')
  {
  }

  /** In every run identifiers never clash, and none ever reaches the greatest
      number of entries alive at one time. */
  lemma {:induction false} RunKeepsIdsSmall(states: seq<seq<nat>>, ops: seq<Op>, peak: nat, i: nat)
    requires IsRun(states, ops) && i < |states|
    requires forall j | 0 <= j <= i :: |states[j]| <= peak
    ensures NoDup(states[i]) && forall id | id in states[i] :: id < peak
  {
    if i > 0 {
      RunKeepsIdsSmall(states, ops, peak, i - 1);
      assert Step(states[i - 1], ops[i - 1], states[i]);
      if ops[i - 1].Gen? {
        CoverCountFromZero(states[i - 1], ops[i - 1].id);
      } else {
        KillKeepsEntries(states[i - 1], ops[i - 1].pos, states[i]);
      }
    }
  }
}
