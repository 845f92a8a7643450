/**
  Reconciliation of the cross-reference sections and trailers of a PDF file
  (ISO 32000-1:2008, sections 7.5.4 to 7.5.8).

  While scanning, the parser reports every xref section it meets: it opens a
  record keyed by the section's byte position and fills that record with
  object offsets and a trailer. Once the whole file is scanned, the position
  named by the last `startxref` keyword picks the newest section; the chain of
  trailer `Prev` entries leads to the older ones, and the records on that chain
  are merged oldest first, so that a newer revision overrides what an older one
  said. Without a usable head, every record is merged in byte-position order.
*/
module XrefTrailer {
  import opened Wrappers
  import opened Ordering

  /** The two on-disk forms of a cross-reference section. */
  datatype XRefType = Table | Stream

  /** An object number with its generation number. */
  datatype ObjectKey = ObjectKey(number: int, generation: int)

  /**
    A value stored in a trailer dictionary. Only integers matter here (the
    `Prev` entry); every other kind of object is an opaque token.
  */
  datatype CosValue = CosInteger(value: int) | CosOther(token: nat)

  /** A trailer dictionary, from key names to values. */
  type Dict = map<string, CosValue>

  /** The trailer key naming the byte position of the previous section. */
  const PREV: string := "Prev"

  /** `COSDictionary.getLong(key, default)`: the integer stored under `key`, else `default`. */
  function GetLong(d: Dict, key: string, default: int): int
  {
    if key in d && d[key].CosInteger? then d[key].value else default
  }

  /**
    `COSDictionary.addAll`: copies the entries of `from` into `into`. The
    dictionary class is not part of this model; its entries are taken to
    replace existing entries under the same key.
  */
  function AddAll(into: Dict, from: Dict): Dict
  {
    into + from
  }

  /** One xref section with its trailer, as collected while scanning. */
  datatype XrefRecord = XrefRecord(trailer: Option<Dict>, xrefType: XRefType, table: map<ObjectKey, int>)

  /** What the resolution yields: a type, one trailer and one offset table. */
  datatype Resolution = Resolution(xrefType: XRefType, trailer: Dict, table: map<ObjectKey, int>)

  /** The records, keyed by the byte position where their section starts. */
  type Index = map<int, XrefRecord>

  /** The `Prev` position a record names; -1 when it has no trailer or no `Prev`. */
  function PrevPos(r: XrefRecord): int
  {
    if r.trailer.None? then -1 else GetLong(r.trailer.value, PREV, -1)
  }

  /**
    The positions that chain-following appends after `last`, when `n`
    positions have been collected so far. It stops at a missing or -1 `Prev`,
    at a `Prev` that names no record, and as soon as the number of collected
    positions reaches the number of records (the guard against cycles).
  */
  function Follow(idx: Index, last: int, n: nat): seq<int>
    requires last in idx
    decreases |idx| - n
  {
    var p := PrevPos(idx[last]);
    if p == -1 || p !in idx then []
    else if n + 1 >= |idx| then [p]
    else [p] + Follow(idx, p, n + 1)
  }

  /** The chain of section positions from the head back along `Prev`, newest first. */
  function Chain(idx: Index, head: int): seq<int>
    requires head in idx
  {
    [head] + Follow(idx, head, 1)
  }

  /** Every position of `s` has a record. */
  predicate AllKnown(idx: Index, s: seq<int>)
  {
    forall i :: 0 <= i < |s| ==> s[i] in idx
  }

  /** Each position of `s` is the `Prev` of the one before it. */
  predicate Linked(idx: Index, s: seq<int>)
    requires AllKnown(idx, s)
  {
    forall i :: 0 <= i < |s| - 1 ==> s[i + 1] == PrevPos(idx[s[i]])
  }

  lemma {:induction false} FollowShape(idx: Index, last: int, n: nat)
    requires last in idx
    ensures var r := Follow(idx, last, n);
      && AllKnown(idx, r)
      && Linked(idx, r)
      && (r != [] ==> r[0] == PrevPos(idx[last]))
      && |r| <= (if n < |idx| then |idx| - n else 1)
      && (var p := PrevPos(idx[if r == [] then last else r[|r| - 1]]);
          p == -1 || p !in idx || n + |r| >= |idx|)
    decreases |idx| - n
  {
    var p := PrevPos(idx[last]);
    if p == -1 || p !in idx {
    } else if n + 1 >= |idx| {
    } else {
      FollowShape(idx, p, n + 1);
      var t := Follow(idx, p, n + 1);
      assert Follow(idx, last, n) == [p] + t;
    }
  }

  /**
    The chain starts with the head, holds only known positions, each later
    position is the `Prev` of the one before it, and it ends only at a
    missing, -1 or unknown `Prev`, or where its length reaches the number of
    records. Its length is at most the number of records, except that a single
    record whose `Prev` names itself gives the chain of length two.
  */
  lemma ChainShape(idx: Index, head: int)
    requires head in idx
    ensures var c := Chain(idx, head);
      && c[0] == head
      && AllKnown(idx, c)
      && Linked(idx, c)
      && |c| <= (if |idx| == 1 then 2 else |idx|)
      && (var p := PrevPos(idx[c[|c| - 1]]); p == -1 || p !in idx || |c| >= |idx|)
  {
    FollowShape(idx, head, 1);
    assert |idx| >= 1 by {
      assert head in idx.Keys;
    }
  }

  /** A chain without a usable `Prev` in the head's trailer is the head alone. */
  lemma ChainOfLoneHead(idx: Index, head: int)
    requires head in idx
    requires PrevPos(idx[head]) == -1 || PrevPos(idx[head]) !in idx
    ensures Chain(idx, head) == [head]
  {
  }

  /**
    Two sections that name each other through `Prev` (a cycle) and are the
    only ones give a chain of exactly these two positions.
  */
  lemma ChainOfTwoCycle(idx: Index, a: int, b: int)
    requires idx.Keys == {a, b} && a != b && a != -1 && b != -1
    requires PrevPos(idx[a]) == b && PrevPos(idx[b]) == a
    ensures Chain(idx, a) == [a, b]
  {
    assert |idx| == 2 by {
      assert |idx.Keys| == |{a, b}|;
    }
    assert Follow(idx, a, 1) == [b];
  }

  /**
    The merged offset table of the records at the positions of `order`,
    taken oldest first: each record's table is put over the tables before it
    (`HashMap.putAll`).
  */
  function MergedTable(idx: Index, order: seq<int>): map<ObjectKey, int>
    requires AllKnown(idx, order)
  {
    if order == [] then map[]
    else MergedTable(idx, order[..|order| - 1]) + idx[order[|order| - 1]].table
  }

  /** The merged trailer of the records at the positions of `order`, oldest first. */
  function MergedTrailer(idx: Index, order: seq<int>): Dict
    requires AllKnown(idx, order)
  {
    if order == [] then map[]
    else
      var prior := MergedTrailer(idx, order[..|order| - 1]);
      var t := idx[order[|order| - 1]].trailer;
      if t.Some? then AddAll(prior, t.value) else prior
  }

  /** Some record in `order` has an entry for `k`. */
  predicate Listed(idx: Index, order: seq<int>, k: ObjectKey)
    requires AllKnown(idx, order)
  {
    exists i :: 0 <= i < |order| && k in idx[order[i]].table
  }

  /** The record at index `i` of `order` is the last one with an entry for `k`. */
  predicate NewestFor(idx: Index, order: seq<int>, k: ObjectKey, i: int)
    requires AllKnown(idx, order)
  {
    && 0 <= i < |order|
    && k in idx[order[i]].table
    && forall j :: i < j < |order| ==> k !in idx[order[j]].table
  }

  /** The merged table has an entry for exactly the keys some merged record lists. */
  lemma {:induction false} MergedTableKeys(idx: Index, order: seq<int>, k: ObjectKey)
    requires AllKnown(idx, order)
    ensures k in MergedTable(idx, order) <==> Listed(idx, order, k)
  {
    if order != [] {
      var front := order[..|order| - 1];
      MergedTableKeys(idx, front, k);
      if Listed(idx, front, k) {
        var i :| 0 <= i < |front| && k in idx[front[i]].table;
        assert order[i] == front[i];
      }
      if Listed(idx, order, k) && k !in idx[order[|order| - 1]].table {
        var i :| 0 <= i < |order| && k in idx[order[i]].table;
        assert front[i] == order[i];
      }
    }
  }

  /** Newer wins: each key carries the offset of the last merged record that lists it. */
  lemma {:induction false} MergedTableNewest(idx: Index, order: seq<int>, k: ObjectKey, i: int)
    requires AllKnown(idx, order)
    requires NewestFor(idx, order, k, i)
    ensures k in MergedTable(idx, order)
    ensures MergedTable(idx, order)[k] == idx[order[i]].table[k]
  {
    var last := |order| - 1;
    if i < last {
      var front := order[..last];
      assert front[i] == order[i];
      forall j | i < j < |front|
        ensures k !in idx[front[j]].table
      {
        assert front[j] == order[j];
      }
      MergedTableNewest(idx, front, k, i);
    }
  }

  /** The merge order: the chain oldest first when the head is known, else every position ascending. */
  ghost function MergeOrder(idx: Index, head: int): (order: seq<int>)
    ensures AllKnown(idx, order)
  {
    if head in idx then
      ChainShape(idx, head);
      Backwards(Chain(idx, head))
    else
      SortedKeys(idx.Keys)
  }

  /** The result of `setStartxref(head)` over the records `idx`. */
  ghost function Resolve(idx: Index, head: int): Resolution
  {
    var order := MergeOrder(idx, head);
    Resolution(
      if head in idx then idx[head].xrefType else Table,
      MergedTrailer(idx, order),
      MergedTable(idx, order))
  }

  /**
    Without a record at the head position, every record is merged in
    ascending byte-position order and the type is `Table`; with one, the
    type is the head record's.
  */
  lemma ResolveType(idx: Index, head: int)
    ensures head !in idx ==>
      && Resolve(idx, head).xrefType == Table
      && StrictlyIncreasing(MergeOrder(idx, head))
      && (forall p :: p in MergeOrder(idx, head) <==> p in idx)
    ensures head in idx ==> Resolve(idx, head).xrefType == idx[head].xrefType
  {
  }

  /**
    With the head known, the merge order is the chain reversed: it ends with
    the head and begins with the oldest section reached.
  */
  lemma {:induction false} MergeOrderOfChain(idx: Index, head: int)
    requires head in idx
    ensures var order := MergeOrder(idx, head);
      && order[|order| - 1] == head
      && (forall i :: 0 < i < |order| ==> order[i - 1] == PrevPos(idx[order[i]]))
  {
    ChainShape(idx, head);
    var c := Chain(idx, head);
    var order := MergeOrder(idx, head);
    assert order == Backwards(c);
    forall i | 0 < i < |order|
      ensures order[i - 1] == PrevPos(idx[order[i]])
    {
      var j := |c| - 1 - i;
      assert order[i] == c[j] && order[i - 1] == c[j + 1];
    }
  }

  /**
    The resolved table lists a key exactly when some merged record does, and
    gives it the offset of the newest merged record that lists it.
  */
  lemma ResolvedTable(idx: Index, head: int, k: ObjectKey)
    ensures var order := MergeOrder(idx, head);
      && (k in Resolve(idx, head).table <==> Listed(idx, order, k))
      && (forall i :: NewestFor(idx, order, k, i) ==>
            k in Resolve(idx, head).table && Resolve(idx, head).table[k] == idx[order[i]].table[k])
  {
    var order := MergeOrder(idx, head);
    MergedTableKeys(idx, order, k);
    forall i | NewestFor(idx, order, k, i)
      ensures k in Resolve(idx, head).table && Resolve(idx, head).table[k] == idx[order[i]].table[k]
    {
      MergedTableNewest(idx, order, k, i);
    }
  }

  /** The head section is the newest: its own entries always survive the merge. */
  lemma HeadEntriesWin(idx: Index, head: int, k: ObjectKey)
    requires head in idx && k in idx[head].table
    ensures k in Resolve(idx, head).table
    ensures Resolve(idx, head).table[k] == idx[head].table[k]
  {
    MergeOrderOfChain(idx, head);
    var order := MergeOrder(idx, head);
    MergedTableNewest(idx, order, k, |order| - 1);
  }

  /** Resolving an empty index yields the empty trailer and the empty table, of type `Table`. */
  lemma ResolveEmpty(head: int)
    ensures Resolve(map[], head) == Resolution(Table, map[], map[])
  {
    assert SortedKeys({}) == [];
  }

  /** A set of keys other than the empty one has an element. */
  lemma KeyInhabited(s: set<ObjectKey>)
    requires s != {}
    ensures exists k :: k in s
  {
    assert (forall k :: k !in s) ==> s == {};
  }

  /** The object numbers of the keys whose offset is `-objstm`: the objects stored in that object stream. */
  ghost predicate InObjectStream(table: map<ObjectKey, int>, objstm: int, num: int)
  {
    exists k :: k in table && table[k] == -objstm && k.number == num
  }

  /**
    The `while` loop of `setStartxref`: starting at the head, follows the
    `Prev` entries until one is missing, -1 or unknown, or until as many
    positions as records have been collected.
  */
  method CollectChain(records: Index, head: int) returns (chain: seq<int>)
    requires head in records
    ensures chain == Chain(records, head)
  {
    chain := [head];
    var curObj := records[head];
    while curObj.trailer.Some?
      invariant chain != [] && chain[|chain| - 1] in records
      invariant curObj == records[chain[|chain| - 1]]
      invariant chain + Follow(records, chain[|chain| - 1], |chain|) == Chain(records, head)
      invariant |chain| == 1 || |chain| < |records|
      decreases |records| + 1 - |chain|
    {
      var prevBytePos := GetLong(curObj.trailer.value, PREV, -1);
      if prevBytePos == -1 {
        break;
      }
      if prevBytePos !in records {
        break;
      }
      ghost var before := chain;
      curObj := records[prevBytePos];
      chain := chain + [prevBytePos];
      if |chain| >= |records| {
        assert Follow(records, before[|before| - 1], |before|) == [prevBytePos];
        break;
      }
      assert Follow(records, before[|before| - 1], |before|)
          == [prevBytePos] + Follow(records, prevBytePos, |chain|);
    }
  }

  /**
    The `for` loop of `setStartxref`: merges the records at the positions of
    `order`, oldest first, into one trailer and one offset table.
  */
  method MergeRecords(records: Index, order: seq<int>) returns (trailer: Dict, table: map<ObjectKey, int>)
    requires AllKnown(records, order)
    ensures trailer == MergedTrailer(records, order)
    ensures table == MergedTable(records, order)
  {
    trailer := map[];
    table := map[];
    for i := 0 to |order|
      invariant trailer == MergedTrailer(records, order[..i])
      invariant table == MergedTable(records, order[..i])
    {
      assert order[..i + 1][..i] == order[..i];
      var curObj := records[order[i]];
      if curObj.trailer.Some? {
        trailer := AddAll(trailer, curObj.trailer.value);
      }
      table := table + curObj.table;
    }
    assert order[..|order|] == order;
  }

  /**
    Collects the xref sections and trailers of one file and resolves them,
    once, into the table and trailer the document is read with.
  */
  class XrefTrailerResolver {
    /** The records, keyed by the byte position of their section. */
    var records: Index
    /** The position of the record that `SetXRef` and `SetTrailer` fill, if one was opened. */
    var current: Option<int>
    /** The resolution, once `SetStartxref` has run. */
    var resolved: Option<Resolution>

    /** The current record is always one of the records. */
    ghost predicate Valid()
      reads this
    {
      current.Some? ==> current.value in records
    }

    constructor ()
      ensures Valid()
      ensures records == map[] && current == None && resolved == None
    {
      records := map[];
      current := None;
      resolved := None;
    }

    /** The trailer of the record at the smallest byte position (before or after resolution). */
    method GetFirstTrailer() returns (r: Option<Dict>)
      ensures records == map[] ==> r == None
      ensures records != map[] ==> r == records[Least(records.Keys)].trailer
    {
      if |records| == 0 {
        return None;
      }
      assert records.Keys != {} by {
        assert |records.Keys| != 0;
      }
      var sorted := SortedPositions(records.Keys);
      SortedKeysFirst(records.Keys);
      r := records[sorted[0]].trailer;
    }

    /** The trailer of the record at the largest byte position (before or after resolution). */
    method GetLastTrailer() returns (r: Option<Dict>)
      ensures records == map[] ==> r == None
      ensures records != map[] ==> r == records[Greatest(records.Keys)].trailer
    {
      if |records| == 0 {
        return None;
      }
      assert records.Keys != {} by {
        assert |records.Keys| != 0;
      }
      var sorted := SortedPositions(records.Keys);
      SortedKeysLast(records.Keys);
      r := records[sorted[|sorted| - 1]].trailer;
    }

    /** Opens a fresh record at `startBytePos`, replacing any record there, and makes it current. */
    method NextXrefObj(startBytePos: int, xrefType: XRefType)
      requires Valid()
      modifies this
      ensures Valid()
      ensures records == old(records)[startBytePos := XrefRecord(None, xrefType, map[])]
      ensures current == Some(startBytePos)
      ensures resolved == old(resolved)
    {
      records := records[startBytePos := XrefRecord(None, xrefType, map[])];
      current := Some(startBytePos);
    }

    /** The type of the resolved xref data, or none before resolution. */
    function GetXrefType(): (r: Option<XRefType>)
      reads this
      ensures resolved.None? ==> r.None?
      ensures resolved.Some? ==> r == Some(resolved.value.xrefType)
    {
      if resolved.None? then None else Some(resolved.value.xrefType)
    }

    /**
      Records the offset of `key` in the current record. Without a current
      record nothing changes (the source only logs a warning).
    */
    method SetXRef(key: ObjectKey, offset: int)
      requires Valid()
      modifies this
      ensures Valid()
      ensures current == old(current) && resolved == old(resolved)
      ensures old(current).None? ==> records == old(records)
      ensures old(current).Some? ==>
        var p := old(current).value;
        records == old(records)[p := old(records)[p].(table := old(records)[p].table[key := offset])]
    {
      if current.None? {
        return;
      }
      var p := current.value;
      records := records[p := records[p].(table := records[p].table[key := offset])];
    }

    /**
      Sets the trailer of the current record; `None` stands for a null
      trailer, which clears it. Without a current record nothing changes (the
      source only logs a warning).
    */
    method SetTrailer(trailer: Option<Dict>)
      requires Valid()
      modifies this
      ensures Valid()
      ensures current == old(current) && resolved == old(resolved)
      ensures old(current).None? ==> records == old(records)
      ensures old(current).Some? ==>
        var p := old(current).value;
        records == old(records)[p := old(records)[p].(trailer := trailer)]
    {
      if current.None? {
        return;
      }
      var p := current.value;
      records := records[p := records[p].(trailer := trailer)];
    }

    /** The trailer of the current record; the source requires one to be open. */
    method GetCurrentTrailer() returns (r: Option<Dict>)
      requires Valid() && current.Some?
      ensures r == records[current.value].trailer
    {
      r := records[current.value].trailer;
    }

    /**
      Resolves the collected records from the head position `startxref`, once:
      follows the `Prev` chain from the head (or, when no record sits at the
      head, takes every record in ascending position order), then merges the
      records oldest first. A second call changes nothing.
    */
    method SetStartxref(startxref: int)
      requires Valid()
      modifies this
      ensures Valid()
      ensures records == old(records) && current == old(current)
      ensures old(resolved).Some? ==> resolved == old(resolved)
      ensures old(resolved).None? ==> resolved == Some(Resolve(records, startxref))
    {
      if resolved.Some? {
        return;
      }
      var xrefType := Table;
      var order: seq<int>;
      if startxref !in records {
        order := SortedPositions(records.Keys);
      } else {
        xrefType := records[startxref].xrefType;
        var chain := CollectChain(records, startxref);
        order := Backwards(chain);
      }
      assert order == MergeOrder(records, startxref);
      var trailer, table := MergeRecords(records, order);
      resolved := Some(Resolution(xrefType, trailer, table));
    }

    /** The resolved trailer, or none before resolution. */
    function GetTrailer(): (r: Option<Dict>)
      reads this
      ensures resolved.None? ==> r.None?
      ensures resolved.Some? ==> r == Some(resolved.value.trailer)
    {
      if resolved.None? then None else Some(resolved.value.trailer)
    }

    /** The resolved offset table, or none before resolution. */
    function GetXrefTable(): (r: Option<map<ObjectKey, int>>)
      reads this
      ensures resolved.None? ==> r.None?
      ensures resolved.Some? ==> r == Some(resolved.value.table)
    {
      if resolved.None? then None else Some(resolved.value.table)
    }

    /**
      The numbers of the objects that the resolved table places in the object
      stream numbered `objstmObjNr` (offset `-objstmObjNr`); none before
      resolution.
    */
    method GetContainedObjectNumbers(objstmObjNr: int) returns (r: Option<set<int>>)
      ensures resolved.None? ==> r.None?
      ensures resolved.Some? ==>
        && r.Some?
        && forall num :: num in r.value <==> InObjectStream(resolved.value.table, objstmObjNr, num)
    {
      if resolved.None? {
        return None;
      }
      var table := resolved.value.table;
      var cmpVal := -objstmObjNr;
      var refObjNrs: set<int> := {};
      var rest := table.Keys;
      while rest != {}
        invariant rest <= table.Keys
        invariant forall num :: num in refObjNrs <==>
          exists k :: k in table && k !in rest && table[k] == cmpVal && k.number == num
        decreases rest
      {
        KeyInhabited(rest);
        var k :| k in rest;
        if table[k] == cmpVal {
          refObjNrs := refObjNrs + {k.number};
        }
        rest := rest - {k};
      }
      r := Some(refObjNrs);
    }
  }
}
