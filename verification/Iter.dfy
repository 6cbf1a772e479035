/** The array and map iterators of `tnt/tnt_iter.c`. */
module Iter {
  import opened MsgPack

  /** `mp_next` */
  function Skip(s: bytes, p: nat): (q: nat)
    requires p <= |s| && Parse(s[p..]).Parsed?
    ensures p <= q <= |s|
  {
    p + Parse(s[p..]).len
  }

  /** The bytes of one value, found by skipping over it, are exactly that value. */
  lemma Span(s: bytes, p: nat)
    requires p <= |s| && Parse(s[p..]).Parsed?
    ensures Exact(s[p..Skip(s, p)], Parse(s[p..]).v)
  {
    hide Parse;
    var q := Skip(s, p);
    assert s[p..q] == s[p..][..Parse(s[p..]).len];
    assert s[p..q][..Parse(s[p..]).len] == s[p..q];
    ParseLocal(s[p..], s[p..q]);
  }

  /** `struct tnt_iter_array`; `elem` and `elemEnd` are offsets into `data`. */
  class ArrayIter {
    const data: bytes
    const firstElem: nat
    const elemCount: u32
    var curIndex: int
    var elem: nat
    var elemEnd: nat
    var ok: bool

    /** Where the next element starts. */
    function Cursor(): nat
      reads this
    {
      if curIndex < 0 then firstElem else elemEnd
    }

    ghost predicate Valid()
      reads this
    {
      && -1 <= curIndex && firstElem <= |data| && ParseMany(data[firstElem..], elemCount).ParsedMany?
      && (curIndex < elemCount ==>
            && Cursor() <= |data|
            && ParseMany(data[Cursor()..], elemCount - curIndex - 1).ParsedMany?)
    }

    /** The elements still to come. */
    ghost function Left(): seq<Value>
      requires Valid()
      reads this
    {
      if curIndex < elemCount then ParseMany(data[Cursor()..], elemCount - curIndex - 1).vs else []
    }

    /** What a fresh or rewound iterator has in front of it. */
    ghost function All(): (all: seq<Value>)
      requires Valid()
      reads this
      ensures |all| == elemCount
    {
      ParseMany(data[firstElem..], elemCount).vs
    }

    constructor (data: bytes)
      requires Parse(data).Parsed? && IsType(data, KArray)
      ensures Valid() && this.data == data && Left() == All() && Parse(data).v == Array(All()) && ok && curIndex == -1
    {
      hide Parse, ParseMany;
      KindIs(data);
      ContainerAt(data, KArray);
      var h := ParseHead(data);
      this.data := data;
      firstElem, elemCount := h.len, h.arg;
      curIndex, elem, elemEnd, ok := -1, 0, 0, true;
    }

    /** `tnt_iter_array_next` */
    method Next() returns (more: bool)
      requires Valid() && curIndex + 1 < TWO31
      modifies this
      ensures Valid() && (more <==> |old(Left())| > 0)
      ensures more ==> elem <= elemEnd <= |data| && Exact(data[elem..elemEnd], old(Left())[0]) && Left() == old(Left())[1..]
      ensures more ==> ok == old(ok)
      ensures curIndex == old(curIndex) + 1
      ensures !more ==> Left() == [] && !ok
    {
      hide Parse, ParseMany, Exact;
      ghost var at, n := Cursor(), elemCount - curIndex - 1;
      if curIndex < elemCount && n == 0 { ParseManyNil(data[at..]); }
      curIndex := curIndex + 1;
      if curIndex >= elemCount {
        ok := false;
        return false;
      }
      ghost var q := NextAt(data, at, n);
      elem := if curIndex == 0 then firstElem else elemEnd;
      elemEnd := Skip(data, elem);
      Span(data, elem);
      return true;
    }

    /** `tnt_iter_array_rewind` */
    method Rewind()
      requires Valid()
      modifies this
      ensures Valid() && Left() == All() && ok
    {
      curIndex, elem, elemEnd, ok := -1, 0, 0, true;
    }
  }

  /** `struct tnt_iter_map` */
  class MapIter {
    const data: bytes
    const firstKey: nat
    const pairCount: u32
    var curIndex: int
    var key: nat
    var keyEnd: nat
    var value: nat
    var valueEnd: nat
    var ok: bool

    function Cursor(): nat
      reads this
    {
      if curIndex < 0 then firstKey else valueEnd
    }

    ghost predicate Valid()
      reads this
    {
      && -1 <= curIndex && firstKey <= |data| && ParseMany(data[firstKey..], 2 * pairCount).ParsedMany?
      && (curIndex < pairCount ==>
            && Cursor() <= |data|
            && ParseMany(data[Cursor()..], 2 * (pairCount - curIndex - 1)).ParsedMany?)
    }

    /** The keys and values still to come, alternating. */
    ghost function Left(): seq<Value>
      requires Valid()
      reads this
    {
      if curIndex < pairCount then ParseMany(data[Cursor()..], 2 * (pairCount - curIndex - 1)).vs else []
    }

    ghost function All(): seq<Value>
      requires Valid()
      reads this
    {
      ParseMany(data[firstKey..], 2 * pairCount).vs
    }

    constructor (data: bytes)
      requires Parse(data).Parsed? && IsType(data, KMap)
      ensures Valid() && this.data == data && Left() == All() && Parse(data).v == Map(All()) && ok
    {
      hide Parse, ParseMany;
      KindIs(data);
      ContainerAt(data, KMap);
      var h := ParseHead(data);
      this.data := data;
      firstKey, pairCount := h.len, h.arg;
      curIndex, key, keyEnd, value, valueEnd, ok := -1, 0, 0, 0, 0, true;
    }

    /** `tnt_iter_map_next` */
    method Next() returns (more: bool)
      requires Valid() && curIndex + 1 < TWO31
      modifies this
      ensures Valid() && (more <==> |old(Left())| > 0)
      ensures more ==> |old(Left())| >= 2 && Left() == old(Left())[2..] && ok == old(ok)
      ensures more ==> key <= keyEnd <= |data| && Exact(data[key..keyEnd], old(Left())[0])
      ensures more ==> value <= valueEnd <= |data| && Exact(data[value..valueEnd], old(Left())[1])
      ensures !more ==> Left() == [] && !ok
    {
      hide Parse, ParseMany, Exact;
      ghost var at, n := Cursor(), pairCount - curIndex - 1;
      if curIndex < pairCount && n == 0 { ParseManyNil(data[at..]); }
      curIndex := curIndex + 1;
      if curIndex >= pairCount {
        ok := false;
        return false;
      }
      ghost var q := NextAt(data, at, 2 * n);
      ghost var q' := NextAt(data, q, 2 * n - 1);
      key := if curIndex == 0 then firstKey else valueEnd;
      keyEnd := Skip(data, key);
      Span(data, key);
      value := keyEnd;
      valueEnd := Skip(data, value);
      Span(data, value);
      return true;
    }

    /** `tnt_iter_map_rewind` */
    method Rewind()
      requires Valid()
      modifies this
      ensures Valid() && Left() == All() && ok
    {
      curIndex, key, keyEnd, value, valueEnd, ok := -1, 0, 0, 0, 0, true;
    }
  }

  /** `tnt_iter_array`: NULL unless the data starts with a valid array. */
  method OpenArray(data: bytes) returns (it: ArrayIter?)
    ensures it == null <==> !(Parse(data).Parsed? && Parse(data).v.Array?)
    ensures it != null ==> fresh(it) && it.Valid() && it.data == data && it.Left() == it.All() && Parse(data).v == Array(it.All())
  {
    hide Parse, ParseMany, IsType;
    if Parse(data).NoParse? { return null; }
    KindIs(data);
    if !IsType(data, KArray) { return null; }
    it := new ArrayIter(data);
  }

  /** `tnt_iter_map`: NULL unless the data starts with a valid map. */
  method OpenMap(data: bytes) returns (it: MapIter?)
    ensures it == null <==> !(Parse(data).Parsed? && Parse(data).v.Map?)
    ensures it != null ==> fresh(it) && it.Valid() && it.data == data && it.Left() == it.All() && Parse(data).v == Map(it.All())
  {
    hide Parse, ParseMany, IsType;
    if Parse(data).NoParse? { return null; }
    KindIs(data);
    if !IsType(data, KMap) { return null; }
    it := new MapIter(data);
  }

  lemma ExactNone()
    ensures ExactAll([], [])
  {
  }

  lemma ExactMore(spans: seq<bytes>, all: seq<Value>, span: bytes)
    requires |spans| < |all| && ExactAll(spans, all[..|spans|]) && Exact(span, all[|spans|])
    ensures ExactAll(spans + [span], all[..|spans| + 1])
    ensures |spans| + 1 == |all| ==> ExactAll(spans + [span], all)
  {
    hide Exact;
    assert all[..|spans| + 1] == all[..|spans|] + [all[|spans|]];
    if |spans| + 1 == |all| { assert all[..|all|] == all; }
  }

  /** A whole walk over a valid array: every element once, in order. */
  method WalkArray(data: bytes) returns (spans: seq<bytes>)
    requires Parse(data).Parsed? && IsType(data, KArray) && ParseHead(data).arg < TWO31
    ensures Parse(data).v.Array? && ExactAll(spans, Parse(data).v.items)
  {
    hide Parse, ParseMany, Exact, ParseHead, ExactAll;
    ExactNone();
    var it := new ArrayIter(data);
    KindIs(data);
    ContainerAt(data, KArray);
    spans := [];
    ghost var all := it.All();
    var more := it.Next();
    while more
      invariant fresh(it) && it.data == data && it.Valid() && it.All() == all
      invariant !more ==> ExactAll(spans, all)
      invariant |all| == it.elemCount
      invariant more ==> it.curIndex == |spans|
      invariant more ==> |spans| < |all| && it.Left() == all[|spans| + 1..] && ExactAll(spans, all[..|spans|])
      invariant more ==> it.elem <= it.elemEnd <= |data| && Exact(data[it.elem..it.elemEnd], all[|spans|])
      decreases more, if more then |it.Left()| else 0
    {
      ExactMore(spans, all, data[it.elem..it.elemEnd]);
      spans := spans + [data[it.elem..it.elemEnd]];
      more := it.Next();
    }
  }
}
