/** The schema cache: one hash finds a space by its name and by its number, and inside each space one
    hash finds an index both ways. A hash entry points to an object; here the objects lie in a list in
    the order they were added, and a pointer is a position in that list. */
module Schema {
  import opened Seqs
  import opened MsgPack
  import opened Wrappers

  datatype Ident = Ident(number: u32, name: bytes)

  /** The four bytes of a number, which serve as its key. */
  function NumKey(n: u32): bytes
  {
    BE(n, 4)
  }

  lemma NumKeyInjective(a: u32, b: u32)
    requires NumKey(a) == NumKey(b)
    ensures a == b
  {
    PowValues();
    BEInverse(a, 4);
    BEInverse(b, 4);
  }

  type Hash = map<bytes, nat>

  /** The two puts that follow the creation of an object. */
  function Enter(h: Hash, id: Ident, p: nat): Hash
  {
    h[id.name := p][NumKey(id.number) := p]
  }

  /** Names and numbers are distinct, and no name is spelled like a number in use. */
  predicate Distinct(ids: seq<Ident>)
  {
    forall i, j :: 0 <= i < |ids| && 0 <= j < |ids| ==>
      (i != j ==> ids[i].name != ids[j].name && ids[i].number != ids[j].number) && ids[i].name != NumKey(ids[j].number)
  }

  /** The hash has exactly a name entry and a number entry for every object, both leading to it. */
  predicate Agrees(h: Hash, ids: seq<Ident>)
  {
    && (forall i :: 0 <= i < |ids| ==>
          && ids[i].name in h && h[ids[i].name] == i
          && NumKey(ids[i].number) in h && h[NumKey(ids[i].number)] == i)
    && (forall k :: k in h ==> h[k] < |ids| && (k == ids[h[k]].name || k == NumKey(ids[h[k]].number)))
  }

  lemma {:induction false} EnterAgrees(h: Hash, ids: seq<Ident>, id: Ident)
    requires Agrees(h, ids) && Distinct(ids + [id])
    ensures Agrees(Enter(h, id, |ids|), ids + [id])
  {
    var all := ids + [id];
    assert all[|ids|] == id;
    forall i | 0 <= i < |ids|
      ensures ids[i].name != id.name && ids[i].name != NumKey(id.number)
      ensures NumKey(ids[i].number) != id.name && NumKey(ids[i].number) != NumKey(id.number)
    {
      assert all[i] == ids[i];
      if NumKey(ids[i].number) == NumKey(id.number) { NumKeyInjective(ids[i].number, id.number); }
    }
  }

  /** A linear search by name. */
  function Search(ids: seq<Ident>, name: bytes): Option<Ident>
  {
    if |ids| == 0 then None else if ids[0].name == name then Some(ids[0]) else Search(ids[1..], name)
  }

  function SearchNumber(ids: seq<Ident>, n: u32): Option<nat>
  {
    if |ids| == 0 then None
    else if ids[0].number == n then Some(0)
    else if SearchNumber(ids[1..], n).Some? then Some(SearchNumber(ids[1..], n).value + 1) else None
  }

  lemma {:induction false} SearchAt(ids: seq<Ident>, i: nat)
    requires Distinct(ids) && i < |ids|
    ensures Search(ids, ids[i].name) == Some(ids[i]) && SearchNumber(ids, ids[i].number) == Some(i)
  {
    if i > 0 {
      assert Distinct(ids[1..]) by { assert forall k :: 0 <= k < |ids| - 1 ==> ids[1..][k] == ids[k + 1]; }
      SearchAt(ids[1..], i - 1);
    }
  }

  lemma {:induction false} SearchFinds(ids: seq<Ident>, name: bytes)
    ensures Search(ids, name).Some? ==> exists i :: 0 <= i < |ids| && ids[i].name == name
  {
    if |ids| > 0 && ids[0].name != name && Search(ids, name).Some? {
      SearchFinds(ids[1..], name);
      var i :| 0 <= i < |ids[1..]| && ids[1..][i].name == name;
      assert ids[i + 1].name == name;
    }
  }

  /** `int32_t` conversion of a number. */
  function ToInt32(n: u32): (i: int)
    ensures -TWO31 <= i < TWO31 && i % TWO32 == n
  {
    if n < TWO31 then n else n - TWO32
  }

  /** What a name lookup in the hash returns. */
  function Find(h: Hash, ids: seq<Ident>, key: bytes): int
    requires Agrees(h, ids)
  {
    if key in h then ToInt32(ids[h[key]].number) else -1
  }

  /** A lookup agrees with a linear search for the name. The one exception is a name that nothing has but
      that is spelled like a number in use: it finds the object of that number. */
  lemma {:induction false} FindIsSearch(h: Hash, ids: seq<Ident>, name: bytes)
    requires Agrees(h, ids) && Distinct(ids)
    ensures Search(ids, name).Some? ==> Find(h, ids, name) == ToInt32(Search(ids, name).value.number)
    ensures Search(ids, name).None? && name !in h ==> Find(h, ids, name) == -1
    ensures Search(ids, name).None? ==>
              (name in h <==> exists i :: 0 <= i < |ids| && NumKey(ids[i].number) == name)
  {
    SearchFinds(ids, name);
    if name in h && ids[h[name]].name == name { SearchAt(ids, h[name]); }
    if Search(ids, name).Some? {
      var i :| 0 <= i < |ids| && ids[i].name == name;
      SearchAt(ids, i);
    }
  }

  lemma {:induction false} NumberFound(ids: seq<Ident>, n: u32)
    requires SearchNumber(ids, n).Some?
    ensures SearchNumber(ids, n).value < |ids| && ids[SearchNumber(ids, n).value].number == n
  {
    if ids[0].number != n { NumberFound(ids[1..], n); }
  }

  /** A number lookup agrees with a linear search for the number. The one exception is a number that nothing
      has but that spells a name in use: it finds the object of that name. */
  lemma {:induction false} NumberIsSearch(h: Hash, ids: seq<Ident>, n: u32)
    requires Agrees(h, ids) && Distinct(ids)
    ensures SearchNumber(ids, n).Some? ==> NumKey(n) in h && h[NumKey(n)] == SearchNumber(ids, n).value
    ensures SearchNumber(ids, n).None? ==>
              (NumKey(n) in h <==> exists i :: 0 <= i < |ids| && ids[i].name == NumKey(n))
  {
    hide NumKey;
    if SearchNumber(ids, n).Some? {
      NumberFound(ids, n);
    } else if NumKey(n) in h {
      var i := h[NumKey(n)];
      SearchAt(ids, i);
      if NumKey(ids[i].number) == NumKey(n) { NumKeyInjective(ids[i].number, n); }
    }
  }

  /** Both exceptions at work: an object numbered 5 whose name is spelled like 7. */
  lemma SpelledLikeNumbers()
    ensures var ids := [Ident(5, NumKey(7))];
            var h := Enter(map[], ids[0], 0);
            && Agrees(h, ids) && Distinct(ids)
            && Search(ids, NumKey(5)).None? && Find(h, ids, NumKey(5)) == 5
            && SearchNumber(ids, 7).None? && NumKey(7) in h && h[NumKey(7)] == 0
  {
    hide NumKey, Agrees, Enter, Search, SearchNumber;
    if NumKey(5) == NumKey(7) { NumKeyInjective(5, 7); }
    OnlyEntry(5, NumKey(7));
  }

  /** A list of one object whose name is not the spelling of its number. */
  lemma OnlyEntry(n: u32, name: bytes)
    requires name != NumKey(n)
    ensures var ids := [Ident(n, name)];
            var h := Enter(map[], ids[0], 0);
            && Agrees(h, ids) && Distinct(ids) && NumKey(n) in h && h[NumKey(n)] == 0 && name in h && h[name] == 0
    ensures forall key: bytes :: key != name ==> Search([Ident(n, name)], key).None?
    ensures forall m: u32 :: m != n ==> SearchNumber([Ident(n, name)], m).None?
  {
    hide NumKey;
    assert [Ident(n, name)][1..] == [];
  }

  // ---------------------------------------------------------------- the tuples of the system views

  /** A space tuple: number, owner, name. */
  function SpaceRow(v: Value): Option<Ident>
  {
    if v.Array? && |v.items| >= 3 && v.items[0].UInt? && v.items[2].Str?
    then Some(Ident(v.items[0].n % TWO32, v.items[2].str)) else None
  }

  datatype IndexOf = IndexOf(space: u32, id: Ident)

  /** An index tuple: space number, index number, name. */
  function IndexRow(v: Value): Option<IndexOf>
  {
    if v.Array? && |v.items| >= 3 && v.items[0].UInt? && v.items[1].UInt? && v.items[2].Str?
    then Some(IndexOf(v.items[0].n % TWO32, Ident(v.items[1].n % TWO32, v.items[2].str))) else None
  }

  /** What the decoders take for granted: tuples are long enough, and an index tuple starts with a number. */
  predicate SpaceShape(v: Value) { v.Array? ==> |v.items| >= 3 }

  predicate IndexShape(v: Value) { v.Array? ==> |v.items| >= 3 && v.items[0].UInt? }

  datatype Space = Space(id: Ident, index: Hash, indexes: seq<Ident>)

  datatype Cache = Cache(hash: Hash, spaces: seq<Space>)

  const EMPTY: Cache := Cache(map[], [])

  function Idents(spaces: seq<Space>): (ids: seq<Ident>)
    ensures |ids| == |spaces|
  {
    seq(|spaces|, i requires 0 <= i < |spaces| => spaces[i].id)
  }

  /** `tnt_schema_add_space` */
  function PutSpace(c: Cache, id: Ident): Cache
  {
    Cache(Enter(c.hash, id, |c.spaces|), c.spaces + [Space(id, map[], [])])
  }

  /** `tnt_schema_add_index`; None is the return value -1: the space is unknown. */
  function PutIndex(c: Cache, x: IndexOf): Option<Cache>
  {
    if NumKey(x.space) !in c.hash || c.hash[NumKey(x.space)] >= |c.spaces| then None
    else
      var p := c.hash[NumKey(x.space)];
      var s := c.spaces[p];
      Some(c.(spaces := c.spaces[p := s.(index := Enter(s.index, x.id, |s.indexes|), indexes := s.indexes + [x.id])]))
  }

  datatype Outcome = Outcome(rc: int, cache: Cache)

  /** The loops: stop at the first bad tuple, keeping what was added before it. */
  function PutSpaces(c: Cache, rows: seq<Value>): Outcome
    decreases |rows|
  {
    if |rows| == 0 then Outcome(0, c)
    else match SpaceRow(rows[0])
         case None => Outcome(-1, c)
         case Some(id) => PutSpaces(PutSpace(c, id), rows[1..])
  }

  function PutIndexes(c: Cache, rows: seq<Value>): Outcome
    decreases |rows|
  {
    if |rows| == 0 then Outcome(0, c)
    else match IndexRow(rows[0])
         case None => Outcome(-1, c)
         case Some(x) =>
           match PutIndex(c, x)
           case None => Outcome(-1, c)
           case Some(c') => PutIndexes(c', rows[1..])
  }

  /** Every hash of the cache agrees with its list. */
  predicate Consistent(c: Cache)
  {
    && Agrees(c.hash, Idents(c.spaces)) && Distinct(Idents(c.spaces))
    && forall i :: 0 <= i < |c.spaces| ==> Agrees(c.spaces[i].index, c.spaces[i].indexes) && Distinct(c.spaces[i].indexes)
  }

  /** Whether a lookup by space number and index name ends at an index. */
  predicate Hits(c: Cache, space: u32, name: bytes)
    requires Consistent(c)
  {
    NumKey(space) in c.hash && name in c.spaces[c.hash[NumKey(space)]].index
  }

  /** What such a lookup returns. */
  function FindIndex(c: Cache, space: u32, name: bytes): int
    requires Consistent(c)
  {
    if Hits(c, space, name) then
      var s := c.spaces[c.hash[NumKey(space)]];
      ToInt32(s.indexes[s.index[name]].number)
    else -1
  }

  /** A linear search: for the space number, and then for the name among its indexes. */
  function SearchIndex(c: Cache, space: u32, name: bytes): Option<Ident>
  {
    var p := SearchNumber(Idents(c.spaces), space);
    if p.None? || p.value >= |c.spaces| then None else Search(c.spaces[p.value].indexes, name)
  }

  /** A lookup by space number and index name agrees with the linear search. What the search does not find is
      still hit exactly if the name is spelled like an index number in use or, for a space number not in use,
      if that number spells a space name and the name is a key of that space. */
  lemma {:induction false} FindIndexIsSearch(c: Cache, space: u32, name: bytes)
    requires Consistent(c)
    ensures var found := SearchIndex(c, space, name);
            && (found.Some? ==> FindIndex(c, space, name) == ToInt32(found.value.number))
            && (found.None? && !Hits(c, space, name) ==> FindIndex(c, space, name) == -1)
    ensures SearchIndex(c, space, name).None? ==>
              var p := SearchNumber(Idents(c.spaces), space);
              Hits(c, space, name) <==>
                (p.Some? && p.value < |c.spaces| && SpelledIn(c.spaces[p.value].indexes, name))
                || (p.None? && exists i :: 0 <= i < |c.spaces| && c.spaces[i].id.name == NumKey(space) && name in c.spaces[i].index)
  {
    hide NumKey, Agrees, Distinct;
    var ids := Idents(c.spaces);
    var p := SearchNumber(ids, space);
    NumberIsSearch(c.hash, ids, space);
    if p.Some? {
      NumberFound(ids, space);
      var s := c.spaces[p.value];
      KeyIsSearch(s.index, s.indexes, name);
    } else {
      NamedSpace(c, NumKey(space));
    }
  }

  /** Some object of the list has a number that is spelled like the name. */
  predicate SpelledIn(ids: seq<Ident>, name: bytes)
  {
    exists i :: 0 <= i < |ids| && NumKey(ids[i].number) == name
  }

  lemma KeyIsSearch(h: Hash, ids: seq<Ident>, name: bytes)
    requires Agrees(h, ids) && Distinct(ids)
    ensures Search(ids, name).Some? ==>
              name in h && h[name] < |ids| && ToInt32(ids[h[name]].number) == ToInt32(Search(ids, name).value.number)
    ensures Search(ids, name).None? ==> (name in h <==> SpelledIn(ids, name))
  {
    hide NumKey;
    FindIsSearch(h, ids, name);
    SearchFinds(ids, name);
  }

  /** The space a name entry leads to. */
  lemma NamedSpace(c: Cache, name: bytes)
    requires Consistent(c)
    ensures forall i :: 0 <= i < |c.spaces| && c.spaces[i].id.name == name ==> name in c.hash && c.hash[name] == i
  {
    hide NumKey;
    assert forall i :: 0 <= i < |c.spaces| ==> Idents(c.spaces)[i] == c.spaces[i].id;
  }

  lemma NoIndexes()
    ensures Agrees(map[], []) && Distinct([])
  {
  }

  lemma {:induction false} PutSpaceConsistent(c: Cache, id: Ident)
    requires Consistent(c) && Distinct(Idents(c.spaces) + [id])
    ensures Consistent(PutSpace(c, id)) && Idents(PutSpace(c, id).spaces) == Idents(c.spaces) + [id]
  {
    hide Distinct, Enter;
    EnterAgrees(c.hash, Idents(c.spaces), id);
    NoIndexes();
    assert Idents(PutSpace(c, id).spaces) == Idents(c.spaces) + [id];
  }

  lemma {:induction false} PutIndexConsistent(c: Cache, x: IndexOf)
    requires Consistent(c) && PutIndex(c, x).Some?
    requires Distinct(c.spaces[c.hash[NumKey(x.space)]].indexes + [x.id])
    ensures Consistent(PutIndex(c, x).value) && Idents(PutIndex(c, x).value.spaces) == Idents(c.spaces)
  {
    var s := c.spaces[c.hash[NumKey(x.space)]];
    EnterAgrees(s.index, s.indexes, x.id);
    assert Idents(PutIndex(c, x).value.spaces) == Idents(c.spaces);
  }

  // ---------------------------------------------------------------- a whole load

  predicate AllSpaces(rows: seq<Value>)
  {
    forall i :: 0 <= i < |rows| ==> SpaceRow(rows[i]).Some?
  }

  predicate AllIndexes(rows: seq<Value>)
  {
    forall i :: 0 <= i < |rows| ==> IndexRow(rows[i]).Some?
  }

  function SpaceIds(rows: seq<Value>): (ids: seq<Ident>)
    requires AllSpaces(rows)
    ensures |ids| == |rows|
  {
    seq(|rows|, i requires 0 <= i < |rows| => SpaceRow(rows[i]).value)
  }

  /** The indexes of one space, in the order of the tuples. */
  function IndexIds(rows: seq<Value>, space: u32): seq<Ident>
    requires AllIndexes(rows)
  {
    if |rows| == 0 then []
    else (if IndexRow(rows[0]).value.space == space then [IndexRow(rows[0]).value.id] else []) + IndexIds(rows[1..], space)
  }

  lemma DistinctPrefix(a: seq<Ident>, b: seq<Ident>)
    requires Distinct(a + b)
    ensures Distinct(a)
  {
    forall i | 0 <= i < |a| ensures a[i] == (a + b)[i] { }
  }

  lemma {:induction false} LoadSpaces(c: Cache, rows: seq<Value>)
    requires Consistent(c) && AllSpaces(rows) && Distinct(Idents(c.spaces) + SpaceIds(rows))
    requires forall i :: 0 <= i < |c.spaces| ==> c.spaces[i].indexes == []
    ensures var o := PutSpaces(c, rows);
            && o.rc == 0 && Consistent(o.cache) && Idents(o.cache.spaces) == Idents(c.spaces) + SpaceIds(rows)
            && forall i :: 0 <= i < |o.cache.spaces| ==> o.cache.spaces[i].indexes == []
    decreases |rows|
  {
    hide Consistent, Distinct;
    if |rows| > 0 {
      var id := SpaceRow(rows[0]).value;
      assert Idents(c.spaces) + SpaceIds(rows) == (Idents(c.spaces) + [id]) + SpaceIds(rows[1..]);
      DistinctPrefix(Idents(c.spaces) + [id], SpaceIds(rows[1..]));
      PutSpaceConsistent(c, id);
      LoadSpaces(PutSpace(c, id), rows[1..]);
    } else {
      assert SpaceIds(rows) == [];
    }
  }

  /** The cache has a space of this number. */
  predicate Has(c: Cache, n: u32)
  {
    exists p :: 0 <= p < |c.spaces| && c.spaces[p].id.number == n
  }

  /** The spaces the tuples name are loaded, and the indexes of each stay distinct. */
  predicate Fits(c: Cache, rows: seq<Value>)
    requires AllIndexes(rows)
  {
    && (forall i :: 0 <= i < |rows| ==> Has(c, IndexRow(rows[i]).value.space))
    && (forall p :: 0 <= p < |c.spaces| ==> Distinct(c.spaces[p].indexes + IndexIds(rows, c.spaces[p].id.number)))
  }

  lemma {:induction false} LoadIndexes(c: Cache, rows: seq<Value>)
    requires Consistent(c) && AllIndexes(rows) && Fits(c, rows)
    ensures var o := PutIndexes(c, rows);
            && o.rc == 0 && Consistent(o.cache) && Idents(o.cache.spaces) == Idents(c.spaces)
            && forall p :: 0 <= p < |c.spaces| ==>
                 o.cache.spaces[p].indexes == c.spaces[p].indexes + IndexIds(rows, c.spaces[p].id.number)
    decreases |rows|
  {
    hide Distinct, Consistent, PutIndex;
    if |rows| > 0 {
      var c' := LoadOne(c, rows);
      LoadIndexes(c', rows[1..]);
    } else {
      assert forall p :: 0 <= p < |c.spaces| ==> c.spaces[p].indexes + [] == c.spaces[p].indexes;
    }
  }

  /** The first index tuple of a list. */
  lemma {:induction false} LoadOne(c: Cache, rows: seq<Value>) returns (c': Cache)
    requires Consistent(c) && AllIndexes(rows) && |rows| > 0 && Fits(c, rows)
    ensures PutIndex(c, IndexRow(rows[0]).value) == Some(c') && Consistent(c') && Idents(c'.spaces) == Idents(c.spaces)
    ensures |c'.spaces| == |c.spaces| && AllIndexes(rows[1..]) && Fits(c', rows[1..])
    ensures forall q :: 0 <= q < |c.spaces| ==>
              && c'.spaces[q].id == c.spaces[q].id
              && c'.spaces[q].indexes + IndexIds(rows[1..], c.spaces[q].id.number)
                 == c.spaces[q].indexes + IndexIds(rows, c.spaces[q].id.number)
  {
    hide Distinct;
    var x := IndexRow(rows[0]).value;
    assert Has(c, IndexRow(rows[0]).value.space);
    var p :| 0 <= p < |c.spaces| && c.spaces[p].id.number == x.space;
    assert Idents(c.spaces)[p] == c.spaces[p].id;
    OtherSpaces(c, rows, p);
    c' := PutIndex(c, x).value;
    assert c.spaces[p].indexes + IndexIds(rows, x.space) == c.spaces[p].indexes + [x.id] + IndexIds(rows[1..], x.space);
    DistinctPrefix(c.spaces[p].indexes + [x.id], IndexIds(rows[1..], x.space));
    PutIndexConsistent(c, x);
  }

  /** After one index tuple the rest still fits, and what each space will end with has not changed. */
  lemma {:induction false} OtherSpaces(c: Cache, rows: seq<Value>, p: nat)
    requires Consistent(c) && AllIndexes(rows) && |rows| > 0 && Fits(c, rows)
    requires p < |c.spaces| && c.hash.Keys >= {NumKey(c.spaces[p].id.number)} && c.hash[NumKey(c.spaces[p].id.number)] == p
    requires IndexRow(rows[0]).value.space == c.spaces[p].id.number
    ensures PutIndex(c, IndexRow(rows[0]).value).Some?
    ensures var c' := PutIndex(c, IndexRow(rows[0]).value).value;
            && |c'.spaces| == |c.spaces| && AllIndexes(rows[1..]) && Fits(c', rows[1..])
            && forall q :: 0 <= q < |c.spaces| ==>
                 && c'.spaces[q].id == c.spaces[q].id
                 && c'.spaces[q].indexes + IndexIds(rows[1..], c.spaces[q].id.number)
                    == c.spaces[q].indexes + IndexIds(rows, c.spaces[q].id.number)
  {
    hide Distinct, Agrees;
    var x := IndexRow(rows[0]).value;
    var c' := PutIndex(c, x).value;
    forall q | 0 <= q < |c.spaces|
      ensures c'.spaces[q].id == c.spaces[q].id
      ensures c'.spaces[q].indexes + IndexIds(rows[1..], c.spaces[q].id.number)
              == c.spaces[q].indexes + IndexIds(rows, c.spaces[q].id.number)
    {
      if q == p {
        Assoc(c.spaces[p].indexes, [x.id], IndexIds(rows[1..], x.space));
      } else {
        NumbersDiffer(c, p, q);
        assert [] + IndexIds(rows[1..], c.spaces[q].id.number) == IndexIds(rows[1..], c.spaces[q].id.number);
      }
    }
    forall i | 0 <= i < |rows| - 1
      ensures Has(c', IndexRow(rows[1..][i]).value.space)
    {
      assert rows[1..][i] == rows[i + 1];
      assert Has(c, IndexRow(rows[i + 1]).value.space);
      var r :| 0 <= r < |c.spaces| && c.spaces[r].id.number == IndexRow(rows[i + 1]).value.space;
      assert c'.spaces[r].id.number == IndexRow(rows[i + 1]).value.space;
    }
  }

  lemma NumbersDiffer(c: Cache, p: nat, q: nat)
    requires Consistent(c) && p < |c.spaces| && q < |c.spaces| && p != q
    ensures c.spaces[p].id.number != c.spaces[q].id.number
  {
    assert Idents(c.spaces)[p] == c.spaces[p].id && Idents(c.spaces)[q] == c.spaces[q].id;
  }

  /** Every index tuple names a space of the list, and the indexes of each space are distinct. */
  predicate Placed(ids: seq<Ident>, rows: seq<Value>)
    requires AllIndexes(rows)
  {
    && (forall i :: 0 <= i < |rows| ==> SearchNumber(ids, IndexRow(rows[i]).value.space).Some?)
    && (forall p :: 0 <= p < |ids| ==> Distinct(IndexIds(rows, ids[p].number)))
  }

  lemma PlacedFits(c: Cache, ids: seq<Ident>, rows: seq<Value>)
    requires AllIndexes(rows) && Placed(ids, rows) && Idents(c.spaces) == ids
    requires forall i :: 0 <= i < |c.spaces| ==> c.spaces[i].indexes == []
    ensures Fits(c, rows)
  {
    hide Distinct, IndexRow;
    forall i | 0 <= i < |rows|
      ensures Has(c, IndexRow(rows[i]).value.space)
    {
      var n := IndexRow(rows[i]).value.space;
      NumberFound(ids, n);
      var p := SearchNumber(ids, n).value;
      assert c.spaces[p].id == Idents(c.spaces)[p];
      assert c.spaces[p].id.number == n;
    }
    forall p | 0 <= p < |c.spaces|
      ensures Distinct(c.spaces[p].indexes + IndexIds(rows, c.spaces[p].id.number))
    {
      assert c.spaces[p].id == Idents(c.spaces)[p];
      assert c.spaces[p].indexes + IndexIds(rows, c.spaces[p].id.number) == IndexIds(rows, ids[p].number);
    }
  }

  /** Space tuples and index tuples with distinct names and numbers, each index in a space of the list. */
  predicate Loadable(spaces: seq<Value>, indexes: seq<Value>)
  {
    AllSpaces(spaces) && Distinct(SpaceIds(spaces)) && AllIndexes(indexes) && Placed(SpaceIds(spaces), indexes)
  }

  /** The cache holds exactly these tuples, and every hash has exactly two entries an object, both leading to
      it. */
  predicate Mirrors(c: Cache, spaces: seq<Value>, indexes: seq<Value>)
    requires Loadable(spaces, indexes)
  {
    && Consistent(c) && Idents(c.spaces) == SpaceIds(spaces)
    && forall p :: 0 <= p < |c.spaces| ==> c.spaces[p].indexes == IndexIds(indexes, c.spaces[p].id.number)
  }

  /** Any such lists, spaces first, loaded into an empty cache. */
  lemma {:induction false} LoadAgrees(spaces: seq<Value>, indexes: seq<Value>)
    requires Loadable(spaces, indexes)
    ensures var a := PutSpaces(EMPTY, spaces);
            var b := PutIndexes(a.cache, indexes);
            a.rc == 0 && b.rc == 0 && Mirrors(b.cache, spaces, indexes)
  {
    hide Distinct;
    assert Idents([]) == [] && [] + SpaceIds(spaces) == SpaceIds(spaces);
    assert Consistent(EMPTY) by { EmptyConsistent(); }
    LoadSpaces(EMPTY, spaces);
    var c := PutSpaces(EMPTY, spaces).cache;
    PlacedFits(c, SpaceIds(spaces), indexes);
    LoadIndexes(c, indexes);
    var b := PutIndexes(c, indexes).cache;
    forall p | 0 <= p < |b.spaces|
      ensures b.spaces[p].indexes == IndexIds(indexes, b.spaces[p].id.number)
    {
      assert Idents(c.spaces)[p] == c.spaces[p].id && Idents(b.spaces)[p] == b.spaces[p].id;
      assert [] + IndexIds(indexes, c.spaces[p].id.number) == IndexIds(indexes, c.spaces[p].id.number);
    }
  }

  lemma EmptyConsistent()
    ensures Consistent(EMPTY)
  {
    assert Idents([]) == [];
  }

  // ---------------------------------------------------------------- single tuples

  /** The tuples of the system views: number, owner, name, ... and space number, index number, name, ... */
  lemma TupleRows(n: u32, m: u32, owner: Value, name: bytes, more: seq<Value>)
    ensures SpaceRow(Array([UInt(n), owner, Str(name)] + more)) == Some(Ident(n, name))
    ensures IndexRow(Array([UInt(n), UInt(m), Str(name)] + more)) == Some(IndexOf(n, Ident(m, name)))
  {
  }

  /** A number as the lookups return it, in 32 bits with a sign. */
  lemma SignedNumber(n: u32)
    ensures ToInt32(n) == if n < TWO31 then n else n - TWO32
  {
  }

  /** A space is found under its name as soon as its tuple has been added. */
  lemma {:induction false} SpaceTupleFound(c: Cache, n: u32, owner: Value, name: bytes, more: seq<Value>)
    requires Consistent(c) && Distinct(Idents(c.spaces) + [Ident(n, name)])
    ensures var o := PutSpaces(c, [Array([UInt(n), owner, Str(name)] + more)]);
            && o.rc == 0 && Consistent(o.cache)
            && Find(o.cache.hash, Idents(o.cache.spaces), name) == if n < TWO31 then n else n - TWO32
  {
    hide Distinct, Agrees, PutSpace, SpaceRow, NumKey, Find, Search, Idents, ToInt32;
    var t := Array([UInt(n), owner, Str(name)] + more);
    TupleRows(n, 0, owner, name, more);
    PutSpaceConsistent(c, Ident(n, name));
    OneSpace(c, t);
    LastFound(PutSpace(c, Ident(n, name)).hash, Idents(c.spaces), Ident(n, name));
    SignedNumber(n);
  }

  lemma OneSpace(c: Cache, t: Value)
    requires SpaceRow(t).Some?
    ensures PutSpaces(c, [t]) == Outcome(0, PutSpace(c, SpaceRow(t).value))
  {
    hide SpaceRow, PutSpace;
    assert [t][1..] == [];
  }

  lemma LastFound(h: Hash, ids: seq<Ident>, id: Ident)
    requires Agrees(h, ids + [id]) && Distinct(ids + [id])
    ensures Search(ids + [id], id.name) == Some(id) && Find(h, ids + [id], id.name) == ToInt32(id.number)
    ensures id.name in h
  {
    hide Agrees, Distinct, NumKey, Search, ToInt32;
    assert (ids + [id])[|ids|] == id;
    SearchAt(ids + [id], |ids|);
    FindIsSearch(h, ids + [id], id.name);
    assert id.name in h by { LastEntry(h, ids, id); }
  }

  lemma LastEntry(h: Hash, ids: seq<Ident>, id: Ident)
    requires Agrees(h, ids + [id])
    ensures id.name in h && h[id.name] == |ids|
  {
    hide NumKey;
    assert (ids + [id])[|ids|] == id;
  }

  /** An index is found under the number of its space and its name as soon as its tuple has been added. */
  lemma {:induction false} IndexTupleFound(c: Cache, p: nat, m: u32, name: bytes, more: seq<Value>)
    requires Consistent(c) && p < |c.spaces| && Distinct(c.spaces[p].indexes + [Ident(m, name)])
    ensures var n := c.spaces[p].id.number;
            var o := PutIndexes(c, [Array([UInt(n), UInt(m), Str(name)] + more)]);
            && o.rc == 0 && Consistent(o.cache)
            && FindIndex(o.cache, n, name) == if m < TWO31 then m else m - TWO32
  {
    hide Distinct, Agrees, IndexRow, NumKey, Search, Enter;
    var n := c.spaces[p].id.number;
    var t, x := Array([UInt(n), UInt(m), Str(name)] + more), IndexOf(n, Ident(m, name));
    TupleRows(n, m, Nil, name, more);
    NumberLeads(c, p);
    var c' := PutIndex(c, x).value;
    PutIndexConsistent(c, x);
    OneIndex(c, t);
    NumberLeads(c', p);
    LastFound(c'.spaces[p].index, c.spaces[p].indexes, x.id);
    LastEntry(c'.spaces[p].index, c.spaces[p].indexes, x.id);
    SignedNumber(m);
  }

  /** The number of a space leads to it. */
  lemma NumberLeads(c: Cache, p: nat)
    requires Consistent(c) && p < |c.spaces|
    ensures NumKey(c.spaces[p].id.number) in c.hash && c.hash[NumKey(c.spaces[p].id.number)] == p
  {
    hide NumKey, Distinct;
    assert Idents(c.spaces)[p] == c.spaces[p].id;
  }

  lemma OneIndex(c: Cache, t: Value)
    requires IndexRow(t).Some? && PutIndex(c, IndexRow(t).value).Some?
    ensures PutIndexes(c, [t]) == Outcome(0, PutIndex(c, IndexRow(t).value).value)
  {
    hide IndexRow, PutIndex;
    assert [t][1..] == [];
  }

  /** A load of spaces is that of the tuples in front of the first bad one, and fails if there is one. */
  lemma {:induction false} SpacesUpToBad(c: Cache, rows: seq<Value>) returns (k: nat)
    ensures k <= |rows| && AllSpaces(rows[..k]) && (k < |rows| ==> SpaceRow(rows[k]).None?)
    ensures PutSpaces(c, rows[..k]).rc == 0
    ensures PutSpaces(c, rows) == Outcome(if k == |rows| then 0 else -1, PutSpaces(c, rows[..k]).cache)
    decreases |rows|
  {
    hide SpaceRow, PutSpace;
    if |rows| == 0 || SpaceRow(rows[0]).None? { return 0; }
    var c' := PutSpace(c, SpaceRow(rows[0]).value);
    k := SpacesUpToBad(c', rows[1..]);
    k := k + 1;
    assert rows[..k][0] == rows[0] && rows[..k][1..] == rows[1..][..k - 1];
    assert AllSpaces(rows[..k]);
  }

  /** So is a load of indexes; a tuple whose space is unknown is bad as well. */
  lemma {:induction false} IndexesUpToBad(c: Cache, rows: seq<Value>) returns (k: nat)
    requires Bounded(c)
    ensures k <= |rows| && AllIndexes(rows[..k]) && PutIndexes(c, rows[..k]).rc == 0
    ensures k < |rows| ==> IndexRow(rows[k]).None? || NumKey(IndexRow(rows[k]).value.space) !in c.hash
    ensures PutIndexes(c, rows) == Outcome(if k == |rows| then 0 else -1, PutIndexes(c, rows[..k]).cache)
    decreases |rows|
  {
    hide IndexRow, NumKey, Enter;
    if |rows| == 0 || IndexRow(rows[0]).None? || PutIndex(c, IndexRow(rows[0]).value).None? { return 0; }
    var c' := PutIndex(c, IndexRow(rows[0]).value).value;
    k := IndexesUpToBad(c', rows[1..]);
    k := k + 1;
    assert rows[..k][0] == rows[0] && rows[..k][1..] == rows[1..][..k - 1];
    assert AllIndexes(rows[..k]);
  }

  // ---------------------------------------------------------------- the cache object

  /** Where the first three elements of a tuple lie. */
  lemma {:induction false} TupleAt(s: bytes) returns (a: nat, b: nat, c: nat)
    requires Parse(s).Parsed? && Parse(s).v.Array? && |Parse(s).v.items| >= 3
    ensures ParseHead(s).Head? && a == ParseHead(s).len <= |s| && Parse(s[a..]).Parsed?
    ensures b == a + Parse(s[a..]).len <= |s| && Parse(s[b..]).Parsed?
    ensures c == b + Parse(s[b..]).len <= |s| && Parse(s[c..]).Parsed?
    ensures var vs := Parse(s).v.items;
            Parse(s[a..]).v == vs[0] && Parse(s[b..]).v == vs[1] && Parse(s[c..]).v == vs[2]
  {
    hide Parse, ParseMany, ParseHead;
    ContainerAt(s, KArray);
    a := ParseHead(s).len;
    var n := |Parse(s).v.items|;
    b := NextAt(s, a, n);
    c := NextAt(s, b, n - 1);
    var d := NextAt(s, c, n - 2);
  }

  /** Pointers in the hash lead to objects, even when names or numbers repeat. */
  predicate Bounded(c: Cache)
  {
    forall k :: k in c.hash ==> c.hash[k] < |c.spaces|
  }

  /** An array reply payload: `r->data`, checked by `mp_check` and its type. */
  predicate IsRows(data: bytes)
  {
    Parse(data).Parsed? && Parse(data).v.Array?
  }

  predicate AllShaped(data: bytes, spaces: bool)
  {
    IsRows(data) ==> forall i :: 0 <= i < |Parse(data).v.items| ==>
      if spaces then SpaceShape(Parse(data).v.items[i]) else IndexShape(Parse(data).v.items[i])
  }

  /** `struct tnt_schema` */
  class Schema {
    var hash: Hash
    var spaces: seq<Space>

    /** `tnt_schema_new` */
    constructor ()
      ensures State() == EMPTY
    {
      hash, spaces := map[], [];
    }

    function State(): Cache
      reads this
    {
      Cache(hash, spaces)
    }

    /** `tnt_schema_add_space` on the tuple at the start of `tuple`. */
    method AddSpace(tuple: bytes) returns (rc: int)
      requires Parse(tuple).Parsed? && SpaceShape(Parse(tuple).v)
      modifies this
      ensures SpaceRow(Parse(tuple).v).None? ==> rc == -1 && State() == old(State())
      ensures SpaceRow(Parse(tuple).v).Some? ==> rc == 0 && State() == PutSpace(old(State()), SpaceRow(Parse(tuple).v).value)
    {
      hide Parse, ParseHead, IsType;
      KindIs(tuple);
      if !IsType(tuple, KArray) { return -1; }
      ghost var a, b, c := TupleAt(tuple);
      var p := ParseHead(tuple).len;
      KindIs(tuple[p..]);
      if !IsType(tuple[p..], KUInt) { return -1; }
      UintAt(tuple[p..]);
      var number := ParseHead(tuple[p..]).arg % TWO32;
      p := p + ParseHead(tuple[p..]).len;
      p := p + Parse(tuple[p..]).len;
      KindIs(tuple[p..]);
      if !IsType(tuple[p..], KStr) { return -1; }
      StrShape(tuple[p..]);
      var h := ParseHead(tuple[p..]);
      var name := tuple[p..][h.len..h.len + h.arg];
      hash := hash[name := |spaces|];
      hash := hash[NumKey(number) := |spaces|];
      spaces := spaces + [Space(Ident(number, name), map[], [])];
      return 0;
    }

    /** `tnt_schema_add_index` */
    method AddIndex(tuple: bytes) returns (rc: int)
      requires Parse(tuple).Parsed? && IndexShape(Parse(tuple).v) && Bounded(State())
      modifies this
      ensures var x := IndexRow(Parse(tuple).v);
              var r := if x.None? then None else PutIndex(old(State()), x.value);
              if r.None? then rc == -1 && State() == old(State()) else rc == 0 && State() == r.value
    {
      hide Parse, ParseHead, IsType;
      KindIs(tuple);
      if !IsType(tuple, KArray) { return -1; }
      ghost var a, b, c := TupleAt(tuple);
      var p := ParseHead(tuple).len;
      UintAt(tuple[p..]);
      var spaceNumber := ParseHead(tuple[p..]).arg % TWO32;
      p := p + ParseHead(tuple[p..]).len;
      KindIs(tuple[p..]);
      if !IsType(tuple[p..], KUInt) { return -1; }
      if NumKey(spaceNumber) !in hash { return -1; }
      var at := hash[NumKey(spaceNumber)];
      UintAt(tuple[p..]);
      var number := ParseHead(tuple[p..]).arg % TWO32;
      p := p + ParseHead(tuple[p..]).len;
      KindIs(tuple[p..]);
      if !IsType(tuple[p..], KStr) { return -1; }
      StrShape(tuple[p..]);
      var h := ParseHead(tuple[p..]);
      var id := Ident(number, tuple[p..][h.len..h.len + h.arg]);
      var space := spaces[at];
      var index := space.index[id.name := |space.indexes|];
      index := index[NumKey(id.number) := |space.indexes|];
      spaces := spaces[at := space.(index := index, indexes := space.indexes + [id])];
      return 0;
    }

    /** `tnt_schema_add_spaces` */
    method AddSpaces(data: bytes) returns (rc: int)
      requires AllShaped(data, true) && Bounded(State())
      modifies this
      ensures Bounded(State())
      ensures !IsRows(data) ==> rc == -1 && State() == old(State())
      ensures IsRows(data) ==> Outcome(rc, State()) == PutSpaces(old(State()), Parse(data).v.items)
    {
      hide Parse, ParseMany, ParseHead, IsType, SpaceRow;
      if Parse(data).NoParse? { return -1; }
      KindIs(data);
      if !IsType(data, KArray) { return -1; }
      ContainerAt(data, KArray);
      var p := ParseHead(data).len;
      var count := ParseHead(data).arg;
      ghost var rows := Parse(data).v.items;
      while count > 0
        invariant 0 <= p <= |data| && count == |rows| && ParseMany(data[p..], count).ParsedMany?
        invariant rows == ParseMany(data[p..], count).vs && forall i :: 0 <= i < |rows| ==> SpaceShape(rows[i])
        invariant Bounded(State()) && PutSpaces(old(State()), Parse(data).v.items) == PutSpaces(State(), rows)
        decreases count
      {
        ghost var rest := ParseManyUncons(data[p..], count);
        assert SpaceShape(rows[0]);
        rc := AddSpace(data[p..]);
        if rc != 0 { return -1; }
        assert data[p..][Parse(data[p..]).len..] == data[p + Parse(data[p..]).len..];
        p := p + Parse(data[p..]).len;
        count := count - 1;
        assert rows[1..] == rest.vs;
        rows := rest.vs;
      }
      return 0;
    }

    /** `tnt_schema_add_indexes` */
    method AddIndexes(data: bytes) returns (rc: int)
      requires AllShaped(data, false) && Bounded(State())
      modifies this
      ensures Bounded(State())
      ensures !IsRows(data) ==> rc == -1 && State() == old(State())
      ensures IsRows(data) ==> Outcome(rc, State()) == PutIndexes(old(State()), Parse(data).v.items)
    {
      hide Parse, ParseMany, ParseHead, IsType, IndexRow, Agrees;
      if Parse(data).NoParse? { return -1; }
      KindIs(data);
      if !IsType(data, KArray) { return -1; }
      ContainerAt(data, KArray);
      var p := ParseHead(data).len;
      var count := ParseHead(data).arg;
      ghost var rows := Parse(data).v.items;
      while count > 0
        invariant 0 <= p <= |data| && count == |rows| && ParseMany(data[p..], count).ParsedMany?
        invariant rows == ParseMany(data[p..], count).vs && forall i :: 0 <= i < |rows| ==> IndexShape(rows[i])
        invariant Bounded(State()) && PutIndexes(old(State()), Parse(data).v.items) == PutIndexes(State(), rows)
        decreases count
      {
        ghost var rest := ParseManyUncons(data[p..], count);
        assert IndexShape(rows[0]);
        rc := AddIndex(data[p..]);
        if rc != 0 { return -1; }
        assert data[p..][Parse(data[p..]).len..] == data[p + Parse(data[p..]).len..];
        p := p + Parse(data[p..]).len;
        count := count - 1;
        assert rows[1..] == rest.vs;
        rows := rest.vs;
      }
      return 0;
    }

    /** `tnt_schema_stosid` */
    method SpaceNumber(name: bytes) returns (n: int)
      requires Agrees(hash, Idents(spaces))
      ensures n == Find(hash, Idents(spaces), name)
    {
      if name !in hash { return -1; }
      return ToInt32(spaces[hash[name]].id.number);
    }

    /** `tnt_schema_stoiid` */
    method IndexNumber(space: u32, name: bytes) returns (n: int)
      requires Consistent(State())
      ensures n == FindIndex(State(), space, name)
    {
      if NumKey(space) !in hash { return -1; }
      var s := spaces[hash[NumKey(space)]];
      if name !in s.index { return -1; }
      return ToInt32(s.indexes[s.index[name]].number);
    }

    /** `tnt_schema_space_free`: walk the slots of the hash; for every entry still there delete both entries
        of its space and free the space with its index hash. `slots` and `indexSlots` are the orders in which
        the walks meet the keys. Every space and every index of every space is freed exactly once, and so
        are the two entries of each. */
    method FreeSpaces(slots: seq<bytes>, indexSlots: seq<seq<bytes>>)
      returns (freed: seq<nat>, nodes: nat, inner: seq<seq<nat>>, innerNodes: seq<nat>)
      requires Consistent(State()) && |indexSlots| == |spaces|
      requires forall k :: k in hash ==> k in slots
      requires forall p, k :: 0 <= p < |spaces| && k in spaces[p].index ==> k in indexSlots[p]
      modifies this
      ensures hash == map[] && spaces == old(spaces) && OnceEach(freed, |spaces|) && nodes == 2 * |spaces|
      ensures InnerFreed(spaces, inner, innerNodes, {})
    {
      hash, freed, nodes, inner, innerNodes := FreeTable(State(), slots, indexSlots);
    }
  }

  /** The walk of `tnt_schema_space_free`, which ends with an empty hash. */
  method FreeTable(c: Cache, slots: seq<bytes>, indexSlots: seq<seq<bytes>>)
    returns (h: Hash, freed: seq<nat>, nodes: nat, inner: seq<seq<nat>>, innerNodes: seq<nat>)
    requires Consistent(c) && |indexSlots| == |c.spaces|
    requires forall k :: k in c.hash ==> k in slots
    requires forall p, k :: 0 <= p < |c.spaces| && k in c.spaces[p].index ==> k in indexSlots[p]
    ensures h == map[] && OnceEach(freed, |c.spaces|) && nodes == 2 * |c.spaces|
    ensures InnerFreed(c.spaces, inner, innerNodes, {})
  {
    hide Distinct, NumKey, Tally, Remains, Agrees, OnceEach, InnerFreed;
    h := c.hash;
    var spaces, ids := c.spaces, Idents(c.spaces);
    freed, nodes := [], 0;
    inner, innerNodes := seq(|spaces|, _ => []), seq(|spaces|, _ => 0);
    ghost var live := UpTo(|spaces|);
    TallyStart(|spaces|);
    AllRemain(h, ids, live);
    InnerStart(spaces, inner, innerNodes, live);
    for k := 0 to |slots|
      invariant Remains(h, ids, live) && |inner| == |innerNodes| == |spaces|
      invariant forall key :: key in h ==> key in slots[k..]
      invariant Tally(freed, live, |spaces|) && nodes == 2 * |freed|
      invariant InnerFreed(spaces, inner, innerNodes, live)
    {
      var key := slots[k];
      if key in h {
        var p, n;
        h, p, n := FreeOne(h, ids, key, live);
        var fs, ns := FreeIndexes(spaces[p].index, spaces[p].indexes, indexSlots[p]);
        TallyMore(freed, live, |spaces|, p);
        InnerMore(spaces, inner, innerNodes, live, p, fs, ns);
        freed, nodes := freed + [p], nodes + n;
        inner, innerNodes := inner[p := fs], innerNodes[p := ns];
        live := live - {p};
      }
      assert slots[k..][0] == key && slots[k..][1..] == slots[k + 1..];
    }
    assert h == map[];
    NoneRemain(h, ids, live);
    TallyEnd(freed, |spaces|);
  }

  /** The indexes of every space that is no longer live have been freed once, with two entries each. */
  predicate InnerFreed(spaces: seq<Space>, inner: seq<seq<nat>>, innerNodes: seq<nat>, live: set<nat>)
  {
    && |inner| == |innerNodes| == |spaces|
    && forall p :: 0 <= p < |spaces| && p !in live ==>
         OnceEach(inner[p], |spaces[p].indexes|) && innerNodes[p] == 2 * |spaces[p].indexes|
  }

  lemma InnerStart(spaces: seq<Space>, inner: seq<seq<nat>>, innerNodes: seq<nat>, live: set<nat>)
    requires |inner| == |innerNodes| == |spaces| && live == UpTo(|spaces|)
    ensures InnerFreed(spaces, inner, innerNodes, live)
  {
  }

  lemma InnerMore(
    spaces: seq<Space>, inner: seq<seq<nat>>, innerNodes: seq<nat>, live: set<nat>, p: nat, fs: seq<nat>, ns: nat)
    requires InnerFreed(spaces, inner, innerNodes, live) && p < |spaces|
    requires OnceEach(fs, |spaces[p].indexes|) && ns == 2 * |spaces[p].indexes|
    ensures InnerFreed(spaces, inner[p := fs], innerNodes[p := ns], live - {p})
  {
  }

  /** `tnt_schema_index_free` */
  method FreeIndexes(index: Hash, ids: seq<Ident>, slots: seq<bytes>) returns (freed: seq<nat>, nodes: nat)
    requires Agrees(index, ids) && Distinct(ids) && forall k :: k in index ==> k in slots
    ensures OnceEach(freed, |ids|) && nodes == 2 * |ids|
  {
    hide Distinct, NumKey, Tally, Remains, Agrees, OnceEach;
    var h := index;
    freed, nodes := [], 0;
    ghost var live := UpTo(|ids|);
    TallyStart(|ids|);
    AllRemain(h, ids, live);
    for k := 0 to |slots|
      invariant Remains(h, ids, live)
      invariant forall key :: key in h ==> key in slots[k..]
      invariant Tally(freed, live, |ids|) && nodes == 2 * |freed|
    {
      var key := slots[k];
      if key in h {
        var p, n;
        h, p, n := FreeOne(h, ids, key, live);
        TallyMore(freed, live, |ids|, p);
        freed, nodes := freed + [p], nodes + n;
        live := live - {p};
      }
      assert slots[k..][0] == key && slots[k..][1..] == slots[k + 1..];
    }
    assert h == map[];
    NoneRemain(h, ids, live);
    TallyEnd(freed, |ids|);
  }

  /** The body of both walks: delete both entries of the object behind a key. */
  method FreeOne(h: Hash, ids: seq<Ident>, key: bytes, ghost live: set<nat>) returns (h': Hash, p: nat, n: nat)
    requires Distinct(ids) && Remains(h, ids, live) && key in h
    ensures p == h[key] && p in live && p < |ids| && n == 2
    ensures Remains(h', ids, live - {p}) && key !in h' && h'.Keys <= h.Keys
  {
    hide Distinct;
    h', p, n := h, h[key], 0;
    OthersRemain(h, ids, live, p);
    if NumKey(ids[p].number) in h' {
      h' := h' - {NumKey(ids[p].number)};
      n := n + 1;
    }
    if ids[p].name in h' {
      h' := h' - {ids[p].name};
      n := n + 1;
    }
  }

  /** Each of n objects has been freed exactly once. */
  predicate OnceEach(freed: seq<nat>, n: nat)
  {
    |freed| == n && forall p :: 0 <= p < n ==> multiset(freed)[p] == 1
  }

  /** Each object has been freed once if it is no longer live, and not at all if it is. */
  predicate Tally(freed: seq<nat>, live: set<nat>, n: nat)
  {
    |live| + |freed| == n && forall p :: 0 <= p < n ==> multiset(freed)[p] == if p in live then 0 else 1
  }

  lemma AllRemain(h: Hash, ids: seq<Ident>, live: set<nat>)
    requires Agrees(h, ids) && live == UpTo(|ids|)
    ensures Remains(h, ids, live)
  {
  }

  lemma NoneRemain(h: Hash, ids: seq<Ident>, live: set<nat>)
    requires Remains(h, ids, live) && h == map[]
    ensures live == {}
  {
  }

  lemma TallyStart(n: nat)
    ensures Tally([], UpTo(n), n)
  {
  }

  lemma TallyMore(freed: seq<nat>, live: set<nat>, n: nat, p: nat)
    requires Tally(freed, live, n) && p in live
    ensures Tally(freed + [p], live - {p}, n)
  {
  }

  lemma TallyEnd(freed: seq<nat>, n: nat)
    requires Tally(freed, {}, n)
    ensures OnceEach(freed, n) && |freed| == n
  {
  }

  ghost function UpTo(n: nat): (s: set<nat>)
    ensures |s| == n && forall i :: i in s <==> 0 <= i < n
  {
    if n == 0 then {} else UpTo(n - 1) + {n - 1}
  }

  /** Deleting the two entries of one object leaves the entries of the others. */
  lemma OthersRemain(h: Hash, ids: seq<Ident>, live: set<nat>, p: nat)
    requires Remains(h, ids, live) && Distinct(ids) && p in live
    ensures ids[p].name != NumKey(ids[p].number)
    ensures Remains(h - {NumKey(ids[p].number)} - {ids[p].name}, ids, live - {p})
  {
    var h' := h - {NumKey(ids[p].number)} - {ids[p].name};
    forall i | i in live - {p} ensures ids[i].name in h' && NumKey(ids[i].number) in h' { }
  }

  /** The objects not yet freed have both their entries, and nothing else is left. */
  predicate Remains(h: Hash, ids: seq<Ident>, live: set<nat>)
  {
    && (forall i :: i in live ==> i < |ids| && ids[i].name in h && h[ids[i].name] == i
                                  && NumKey(ids[i].number) in h && h[NumKey(ids[i].number)] == i)
    && (forall k :: k in h ==> h[k] in live && (k == ids[h[k]].name || k == NumKey(ids[h[k]].number)))
  }
}
