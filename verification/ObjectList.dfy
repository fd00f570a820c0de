/** The device object of apps/piface: its Object_List as a virtual concatenation of per-type arrays, and the names of
    its objects. */
module ObjectList {
  import opened Bacnet

  /** BACnet object types below MAX_BACNET_OBJECT_TYPE. */
  type ObjectType = x: int | 0 <= x < 1024

  const OBJECT_DEVICE: ObjectType := 8
  const ARRAY_ALL: Word := 0xFFFF_FFFF

  datatype ObjectId = ObjectId(objectType: ObjectType, instance: Word)

  /** A character string with its encoding. */
  datatype Name = Name(encoding: Octet, text: seq<Octet>)

  /** An Object_Name function: absent, the device's own, or that of another kind of object. */
  datatype Naming = Unnamed | Own | Named(nameOf: Word -> Option<Name>)

  /** One row of the object table: the functions that it holds, those that are NULL being None. */
  datatype Group = Group(
    objectType: ObjectType, count: Option<Word>, stepTo: Option<Word -> Word>, toInstance: Option<Word -> Word>,
    naming: Naming)

  /** A group that counts its objects can also tell their instance numbers. */
  predicate WellFormed(table: seq<Group>) {
    forall p :: 0 <= p < |table| && table[p].count.Some? ==> table[p].toInstance.Some?
  }

  // ---------------------------------------------------------------------------------
  // The concatenated list
  // ---------------------------------------------------------------------------------

  /** The iterator's value for the k-th object: the first comes from all ones, each further one from the one before. */
  function Nth(next: Word -> Word, k: nat): Word {
    if k == 0 then next(0xFFFF_FFFF) else next(Nth(next, k - 1))
  }

  function Slot(g: Group, k: Word): Word {
    match g.stepTo
    case Some(next) => Nth(next, k)
    case None => k
  }

  function IdIn(g: Group, k: Word): ObjectId
    requires g.toInstance.Some?
  {
    ObjectId(g.objectType, g.toInstance.value(Slot(g, k)))
  }

  function ObjectsOf(g: Group): (ids: seq<ObjectId>)
    requires g.count.Some? ==> g.toInstance.Some?
    ensures |ids| == if g.count.Some? then g.count.value else 0
  {
    if g.count.None? then [] else seq(g.count.value, k requires 0 <= k < g.count.value => IdIn(g, k))
  }

  /** The objects of the first p groups, in order. */
  function ObjectsTo(table: seq<Group>, p: nat): seq<ObjectId>
    requires WellFormed(table) && p <= |table|
  {
    if p == 0 then [] else ObjectsTo(table, p - 1) + ObjectsOf(table[p - 1])
  }

  function Objects(table: seq<Group>): seq<ObjectId>
    requires WellFormed(table)
  {
    ObjectsTo(table, |table|)
  }

  /** Conversion to uint32_t. */
  function Narrow(n: nat): Word { n % WORD }

  /** uint32_t addition and subtraction. */
  function Add(a: Word, b: Word): Word { if a + b < WORD then a + b else a + b - WORD }

  function Sub(a: Word, b: Word): Word { if b <= a then a - b else a - b + WORD }

  lemma AddIsModular(a: nat, b: Word)
    ensures Add(Narrow(a), b) == Narrow(a + b)
  {
  }

  lemma {:induction false} ObjectsPrefix(table: seq<Group>, p: nat)
    requires WellFormed(table) && p <= |table|
    ensures ObjectsTo(table, p) <= Objects(table)
    decreases |table| - p
  {
    if p < |table| {
      ObjectsPrefix(table, p + 1);
    }
  }

  /** The k-th object of group p follows those of the groups before. */
  lemma ElementIn(table: seq<Group>, p: nat, k: Word)
    requires WellFormed(table) && p < |table| && table[p].count.Some? && k < table[p].count.value
    ensures var i := |ObjectsTo(table, p)| + k;
            i < |Objects(table)| && Objects(table)[i] == IdIn(table[p], k)
  {
    var before := ObjectsTo(table, p);
    ObjectsPrefix(table, p + 1);
    assert ObjectsTo(table, p + 1) == before + ObjectsOf(table[p]);
    assert ObjectsTo(table, p + 1)[|before| + k] == ObjectsOf(table[p])[k];
  }

  /** What element `index` of the list is: nothing at 0 and beyond the end. */
  function Element(table: seq<Group>, index: Word): Option<ObjectId>
    requires WellFormed(table)
  {
    if 1 <= index <= |Objects(table)| then Some(Objects(table)[index - 1]) else None
  }

  /** Device_Object_List_Count: the length of the list, in 32 bits. */
  method ListCount(table: seq<Group>) returns (count: Word)
    requires WellFormed(table)
    ensures count == Narrow(|Objects(table)|)
  {
    count := 0;
    ghost var total: nat := 0;
    var p := 0;
    while p < |table|
      invariant p <= |table| && total == |ObjectsTo(table, p)| && count == Narrow(total)
    {
      if table[p].count.Some? {
        var n := table[p].count.value;
        AddIsModular(total, n);
        count := Add(count, n);
        total := total + n;
      }
      p := p + 1;
    }
  }

  /** The inner loop of the lookup: from the first object, step to the k-th. */
  method Iterate(next: Word -> Word, k: Word) returns (index: Word)
    ensures index == Nth(next, k)
  {
    var left: nat := k;
    index := next(0xFFFF_FFFF);
    while left != 0
      invariant left <= k && index == Nth(next, k - left)
      decreases left
    {
      index := next(index);
      left := left - 1;
    }
  }

  /** The k-th object of a group, by way of the iterator if there is one. */
  method IdentifierIn(g: Group, k: Word) returns (id: ObjectId)
    requires g.toInstance.Some?
    ensures id == IdIn(g, k)
  {
    var slot := k;
    if g.stepTo.Some? {
      slot := Iterate(g.stepTo.value, k);
    }
    id := ObjectId(g.objectType, g.toInstance.value(slot));
  }

  /** Device_Object_List_Identifier: indices 1 to N give the concatenated list in order, all others fail, and the
      32-bit index that is counted down never underflows. */
  method ListIdentifier(table: seq<Group>, arrayIndex: Word) returns (r: Option<ObjectId>)
    requires WellFormed(table)
    ensures r == Element(table, arrayIndex)
  {
    if arrayIndex == 0 {
      return None;
    }
    var index: Word, count: Word := arrayIndex - 1, 0;
    var p := 0;
    while p < |table|
      invariant p <= |table| && count <= index
      invariant arrayIndex - 1 == |ObjectsTo(table, p)| - count + index
    {
      if table[p].count.Some? {
        index := Sub(index, count);
        count := table[p].count.value;
        if index < count {
          ElementIn(table, p, index);
          var id := IdentifierIn(table[p], index);
          return Some(id);
        }
      }
      p := p + 1;
    }
    return None;
  }

  // ---------------------------------------------------------------------------------
  // Reading the property
  // ---------------------------------------------------------------------------------

  function Encode4(w: Word): (s: seq<Octet>)
    ensures |s| == 4
  {
    Encode16(w / 0x1_0000) + Encode16(w % 0x1_0000)
  }

  /** The application-tagged object identifier: five octets. */
  function EncodeId(id: ObjectId): (s: seq<Octet>)
    ensures |s| == 5
  {
    [0xC4] + Encode4(id.objectType * 0x40_0000 + id.instance % 0x40_0000)
  }

  function EncodeIds(ids: seq<ObjectId>): (s: seq<Octet>)
    ensures |s| == 5 * |ids|
  {
    if ids == [] then [] else EncodeIds(ids[..|ids| - 1]) + EncodeId(ids[|ids| - 1])
  }

  function Encode3(w: int): (s: seq<Octet>)
    requires 0 <= w < 0x100_0000
    ensures |s| == 3
  {
    [w / 0x1_0000] + Encode16(w % 0x1_0000)
  }

  /** The application-tagged unsigned integer: its length and then as few octets as hold it. */
  function EncodeUnsigned(w: Word): (s: seq<Octet>)
    ensures 2 <= |s| <= 5
  {
    if w < 0x100 then [0x21, w]
    else if w < 0x1_0000 then [0x22] + Encode16(w)
    else if w < 0x100_0000 then [0x23] + Encode3(w)
    else [0x24] + Encode4(w)
  }

  /** The octets are the number's own: different numbers give different ones. */
  lemma EncodeUnsignedInjective(v: Word, w: Word)
    ensures EncodeUnsigned(v) == EncodeUnsigned(w) <==> v == w
  {
    var s, u := EncodeUnsigned(v), EncodeUnsigned(w);
    if s == u {
      assert s[0] == u[0];
      assert s[1..] == u[1..];
      if 0x100 <= v < 0x1_0000 {
        assert s[1..] == Encode16(v) && u[1..] == Encode16(w);
      } else if 0x1_0000 <= v < 0x100_0000 {
        assert s[1..] == Encode3(v) && u[1..] == Encode3(w);
        assert s[1..][0] == v / 0x1_0000 && u[1..][0] == w / 0x1_0000;
        assert s[1..][1..] == Encode16(v % 0x1_0000) && u[1..][1..] == Encode16(w % 0x1_0000);
        SameHalves(v % 0x1_0000, w % 0x1_0000);
      } else if v >= 0x100_0000 {
        assert s[1..] == Encode4(v) && u[1..] == Encode4(w);
        assert s[1..][..2] == Encode16(v / 0x1_0000) && u[1..][..2] == Encode16(w / 0x1_0000);
        assert s[1..][2..] == Encode16(v % 0x1_0000) && u[1..][2..] == Encode16(w % 0x1_0000);
        SameHalves(v / 0x1_0000, w / 0x1_0000);
        SameHalves(v % 0x1_0000, w % 0x1_0000);
      }
    }
  }

  lemma SameHalves(a: Half, b: Half)
    ensures Encode16(a) == Encode16(b) <==> a == b
  {
    if Encode16(a) == Encode16(b) {
      assert Encode16(a)[0] == Encode16(b)[0] && Encode16(a)[1] == Encode16(b)[1];
    }
  }

  datatype ReadResult =
    | Length(count: Word)
    | Octets(octets: seq<Octet>)
    | AbortSegmentation
    | InvalidArrayIndex
    | OtherError

  /** When the size test lets n elements pass; the last is let through. */
  predicate FitsApdu(n: nat, limit: nat) { n <= 1 || 5 * n < limit }

  /** What a read of Object_List gives, in terms of the list: its length in 32 bits for index 0, one element for another
      index, and for the whole list as many elements as that length says, if they are judged to fit. */
  function ListRead(table: seq<Group>, arrayIndex: Word, max: nat): ReadResult
    requires WellFormed(table)
  {
    var ids := Objects(table);
    var n := |ids| % WORD;
    if arrayIndex == 0 then Length(n)
    else if arrayIndex == ARRAY_ALL then
      if FitsApdu(n, max % 0x1_0000) then Octets(EncodeIds(ids[..n])) else AbortSegmentation
    else if arrayIndex <= |ids| then Octets(EncodeId(ids[arrayIndex - 1]))
    else InvalidArrayIndex
  }

  /** The Object_List case of the property read; `max` is the size of the buffer (narrowed to 16 bits for the size
      test) and `touched` how many octets of it were written, also when the read is aborted. */
  method ReadObjectList(table: seq<Group>, arrayIndex: Word, max: nat) returns (r: ReadResult, touched: nat)
    requires WellFormed(table)
    ensures r == ListRead(table, arrayIndex, max)
    ensures max >= 5 ==> touched <= max
    ensures r.Length? ==> touched == |EncodeUnsigned(r.count)|
    ensures arrayIndex != ARRAY_ALL && r.Octets? ==> touched == 5
    ensures arrayIndex == ARRAY_ALL ==> (touched <= max <==> max >= 5 || |Objects(table)| % WORD == 0)
  {
    touched := 0;
    var count := ListCount(table);
    if arrayIndex == 0 {
      return Length(count), |EncodeUnsigned(count)|;
    } else if arrayIndex == ARRAY_ALL {
      r, touched := ReadWholeList(table, count, max % 0x1_0000);
    } else {
      var id := ListIdentifier(table, arrayIndex);
      if id.Some? {
        r, touched := Octets(EncodeId(id.value)), 5;
      } else {
        r := InvalidArrayIndex;
      }
    }
  }

  method ReadWholeList(table: seq<Group>, count: Word, limit: nat) returns (r: ReadResult, touched: nat)
    requires WellFormed(table) && count <= |Objects(table)|
    ensures r == if FitsApdu(count, limit) then Octets(EncodeIds(Objects(table)[..count])) else AbortSegmentation
    ensures touched == 0 <==> count == 0
    ensures touched == 0 || touched == 5 || 5 < touched < limit
  {
    ghost var ids := Objects(table);
    var apdu: seq<Octet> := [];
    var i := 1;
    touched := 0;
    while i <= count
      invariant touched == |apdu|
      invariant 1 <= i <= count + 1 && apdu == EncodeIds(ids[..i - 1])
      invariant 2 <= i <= count ==> 5 * i < limit
      invariant i == count + 1 ==> FitsApdu(count, limit)
    {
      var id := ListIdentifier(table, i);
      if id.None? {
        return OtherError, touched;
      }
      assert ids[..i][..i - 1] == ids[..i - 1];
      apdu := apdu + EncodeId(id.value);
      touched := |apdu|;
      if i != count && touched + 5 >= limit {
        return AbortSegmentation, touched;
      }
      i := i + 1;
    }
    return Octets(apdu), touched;
  }

  /** The octets of the reads of elements 1 to n, one after the other. */
  function SingleReads(table: seq<Group>, n: nat, max: nat): seq<Octet>
    requires WellFormed(table) && n <= |Objects(table)| && n < ARRAY_ALL
  {
    if n == 0 then [] else SingleReads(table, n - 1, max) + ListRead(table, n, max).octets
  }

  lemma {:induction false} SingleReadsAll(table: seq<Group>, n: nat, max: nat)
    requires WellFormed(table) && n <= |Objects(table)| && n < ARRAY_ALL
    ensures SingleReads(table, n, max) == EncodeIds(Objects(table)[..n])
  {
    if n > 0 {
      SingleReadsAll(table, n - 1, max);
      assert Objects(table)[..n][..n - 1] == Objects(table)[..n - 1];
    }
  }

  /** The three views agree: a successful whole read is the single reads, from 1 to the length that index 0 gives, in
      order; that length is the number of objects if and only if they can be counted in 32 bits, and then the next
      index is refused. */
  lemma ViewsAgree(table: seq<Group>, max: nat)
    requires WellFormed(table)
    ensures ListRead(table, 0, max).Length?
    ensures var n := ListRead(table, 0, max).count;
            && (n == |Objects(table)| <==> |Objects(table)| < WORD)
            && (n == |Objects(table)| && n + 1 < ARRAY_ALL ==> ListRead(table, n + 1, max) == InvalidArrayIndex)
            && (ListRead(table, ARRAY_ALL, max).Octets? ==>
                  n < ARRAY_ALL && ListRead(table, ARRAY_ALL, max).octets == SingleReads(table, n, max))
  {
    if ListRead(table, ARRAY_ALL, max).Octets? {
      SingleReadsAll(table, |Objects(table)| % WORD, max);
    }
  }

  /** The number whose digits are the octets, highest first. */
  function Value(s: seq<Octet>): nat {
    if s == [] then 0 else Value(s[..|s| - 1]) * 256 + s[|s| - 1]
  }

  function Joined(a: int, b: int, c: int, d: int): int {
    a * 0x100_0000 + b * 0x1_0000 + c * 0x100 + d
  }

  lemma ValueOfFour(s: seq<Octet>)
    requires |s| == 4
    ensures Value(s) == Joined(s[0], s[1], s[2], s[3])
  {
    ValueStep(s);
    ValueStep(s[..3]);
    ValueStep(s[..3][..2]);
    ValueStep(s[..3][..2][..1]);
    assert s[..3][..2][..1][..0] == [];
  }

  lemma ValueStep(s: seq<Octet>)
    requires s != []
    ensures Value(s) == Value(s[..|s| - 1]) * 256 + s[|s| - 1]
  {
  }

  /** A reader of an object identifier: the application tag 12 with four octets, of whose 32 bits the upper 10 are the
      type and the lower 22 the instance. */
  function ReadId(s: seq<Octet>): Option<ObjectId>
    requires |s| == 5
  {
    var v := Value(s[1..]);
    if s[0] == 0xC4 && v / 0x40_0000 < 1024 then Some(ObjectId(v / 0x40_0000, v % 0x40_0000)) else None
  }

  /** A reader of n object identifiers, one after the other. */
  function ReadIds(s: seq<Octet>, n: nat): Option<seq<ObjectId>>
    requires |s| == 5 * n
  {
    if n == 0 then Some([])
    else
      match (ReadIds(s[..|s| - 5], n - 1), ReadId(s[|s| - 5..]))
      case (Some(ids), Some(id)) => Some(ids + [id])
      case _ => None
  }

  /** The octets are those of these identifiers, for whoever reads them. */
  predicate ReadAs(s: seq<Octet>, ids: seq<ObjectId>) {
    |s| == 5 * |ids| && ReadIds(s, |ids|) == Some(ids)
  }

  /** An instance number that an object identifier can hold. */
  predicate Numbered(id: ObjectId) { id.instance < 0x40_0000 }

  lemma IdReadBack(id: ObjectId)
    ensures ReadId(EncodeId(id)) == Some(ObjectId(id.objectType, id.instance % 0x40_0000))
  {
    var v := id.objectType * 0x40_0000 + id.instance % 0x40_0000;
    var s := EncodeId(id);
    assert s[1..] == Encode4(v);
    ValueOfFour(s[1..]);
    FourOctets(v);
    assert v / 0x40_0000 == id.objectType && v % 0x40_0000 == id.instance % 0x40_0000;
  }

  lemma FourOctets(v: Word)
    ensures var s := Encode4(v); Joined(s[0], s[1], s[2], s[3]) == v
  {
    var s, hi, lo := Encode4(v), v / 0x1_0000, v % 0x1_0000;
    assert s[0] == hi / 256 && s[1] == hi % 256 && s[2] == lo / 256 && s[3] == lo % 256;
  }

  lemma {:induction false} IdsReadBack(ids: seq<ObjectId>)
    requires forall k :: 0 <= k < |ids| ==> Numbered(ids[k])
    ensures ReadAs(EncodeIds(ids), ids)
  {
    if ids != [] {
      var front, last := ids[..|ids| - 1], ids[|ids| - 1];
      IdsReadBack(front);
      NumberedReadBack(last);
      ReadAppend(EncodeIds(front), front, EncodeId(last), last);
      assert front + [last] == ids;
    }
  }

  lemma ReadAppend(s: seq<Octet>, ids: seq<ObjectId>, r: seq<Octet>, id: ObjectId)
    requires ReadAs(s, ids) && |r| == 5 && ReadId(r) == Some(id)
    ensures ReadAs(s + r, ids + [id])
  {
    assert (s + r)[..|s + r| - 5] == s && (s + r)[|s + r| - 5..] == r;
  }

  /** Whoever reads the octets of one element finds that object of the table. */
  lemma ElementReadBack(table: seq<Group>, arrayIndex: Word, max: nat)
    requires WellFormed(table) && arrayIndex != ARRAY_ALL && ListRead(table, arrayIndex, max).Octets?
    requires forall k :: 0 <= k < |Objects(table)| ==> Numbered(Objects(table)[k])
    ensures var r := ListRead(table, arrayIndex, max);
            && 1 <= arrayIndex <= |Objects(table)| && |r.octets| == 5
            && ReadId(r.octets) == Some(Objects(table)[arrayIndex - 1])
  {
    NumberedReadBack(Objects(table)[arrayIndex - 1]);
  }

  /** Whoever reads the octets of the whole list finds the objects of the table, all of them and in order, as many as
      the length that index 0 gives. */
  lemma ListReadBack(table: seq<Group>, max: nat)
    requires WellFormed(table) && ListRead(table, ARRAY_ALL, max).Octets?
    requires forall k :: 0 <= k < |Objects(table)| ==> Numbered(Objects(table)[k])
    ensures ListRead(table, 0, max).Length? && ListRead(table, 0, max).count <= |Objects(table)|
    ensures ReadAs(ListRead(table, ARRAY_ALL, max).octets, Objects(table)[..ListRead(table, 0, max).count])
  {
    WholeListOctets(table, max);
    FirstIdsReadBack(Objects(table), ListRead(table, 0, max).count);
  }

  lemma WholeListOctets(table: seq<Group>, max: nat)
    requires WellFormed(table) && ListRead(table, ARRAY_ALL, max).Octets?
    ensures ListRead(table, 0, max).Length? && ListRead(table, 0, max).count <= |Objects(table)|
    ensures ListRead(table, ARRAY_ALL, max).octets == EncodeIds(Objects(table)[..ListRead(table, 0, max).count])
  {
  }

  lemma NumberedReadBack(id: ObjectId)
    requires Numbered(id)
    ensures ReadId(EncodeId(id)) == Some(id)
  {
    IdReadBack(id);
    assert id.instance % 0x40_0000 == id.instance;
  }

  lemma FirstIdsReadBack(ids: seq<ObjectId>, n: nat)
    requires n <= |ids| && forall k :: 0 <= k < |ids| ==> Numbered(ids[k])
    ensures ReadAs(EncodeIds(ids[..n]), ids[..n])
  {
    var first := ids[..n];
    forall k | 0 <= k < |first| ensures Numbered(first[k]) {
      assert first[k] == ids[k];
    }
    IdsReadBack(first);
  }

  /** The octets for index 0 are a tag with the number's length and the number, in as few octets as hold it. */
  lemma UnsignedReadBack(w: Word)
    ensures var s := EncodeUnsigned(w);
            s[0] == 0x20 + (|s| - 1) && Value(s[1..]) == w && (|s| > 2 ==> s[1] != 0)
  {
    var s := EncodeUnsigned(w);
    var v := s[1..];
    ValueStep(v);
    if |s| == 2 {
      assert v[..0] == [];
    } else if |s| == 3 {
      ValueStep(v[..1]);
      assert v == Encode16(w) && v[..1][..0] == [];
    } else if |s| == 4 {
      ValueStep(v[..2]);
      ValueStep(v[..2][..1]);
      assert v == Encode3(w) && v[..2][..1][..0] == [];
      assert v[0] == w / 0x1_0000 && v[1] == w % 0x1_0000 / 256 && v[2] == w % 0x1_0000 % 256;
    } else {
      assert v == Encode4(w);
      ValueOfFour(v);
      FourOctets(w);
    }
  }

  /** The identifier of device 1234, and an element count of 300, in octets. */
  lemma PropertyOctets()
    ensures EncodeId(ObjectId(8, 1234)) == [0xC4, 0x02, 0x00, 0x04, 0xD2]
    ensures EncodeUnsigned(300) == [0x22, 1, 44]
  {
  }

  /** An iterator that enumerates the objects of a group, starting from all ones, is followed to the k-th. */
  lemma {:induction false} IteratorFollowed(next: Word -> Word, xs: seq<Word>, k: nat)
    requires k < |xs| && next(0xFFFF_FFFF) == xs[0]
    requires forall a, b :: 0 <= a && b == a + 1 && b < |xs| ==> next(xs[a]) == xs[b]
    ensures Nth(next, k) == xs[k]
  {
    if k > 0 {
      IteratorFollowed(next, xs, k - 1);
    }
  }

  // ---------------------------------------------------------------------------------
  // Object names
  // ---------------------------------------------------------------------------------

  /** Device_Objects_Find_Functions: the first group of a type. */
  function FindGroup(table: seq<Group>, objectType: ObjectType, p: nat): Option<Group>
    requires p <= |table|
    decreases |table| - p
  {
    if p == |table| then None
    else if table[p].objectType == objectType then Some(table[p])
    else FindGroup(table, objectType, p + 1)
  }

  method FindFunctions(table: seq<Group>, objectType: ObjectType) returns (r: Option<Group>)
    ensures r == FindGroup(table, objectType, 0)
    ensures match r
      case None => forall q :: 0 <= q < |table| ==> table[q].objectType != objectType
      case Some(g) =>
        exists q :: 0 <= q < |table| && g == table[q] && g.objectType == objectType &&
          NoneBefore(table, objectType, 0, q)
  {
    FoundGroup(table, objectType, 0);
    var p := 0;
    while p < |table|
      invariant p <= |table| && FindGroup(table, objectType, 0) == FindGroup(table, objectType, p)
    {
      if table[p].objectType == objectType {
        return Some(table[p]);
      }
      p := p + 1;
    }
    return None;
  }

  /** The name of an object, when the device with number `own` is called `mine`. */
  function NameOf(table: seq<Group>, own: Word, mine: Name, id: ObjectId): Option<Name> {
    match FindGroup(table, id.objectType, 0)
    case None => None
    case Some(g) =>
      match g.naming
      case Unnamed => None
      case Own => if id.instance == own then Some(mine) else None
      case Named(nameOf) => nameOf(id.instance)
  }

  /** The device object is element d of the list and no other, and is the only one named by the device's own name. */
  ghost predicate DeviceAt(table: seq<Group>, own: Word, d: nat) {
    && WellFormed(table) && |Objects(table)| < ARRAY_ALL && d < |Objects(table)|
    && Objects(table)[d] == ObjectId(OBJECT_DEVICE, own)
    && (forall j :: 0 <= j < |Objects(table)| && j != d ==> Objects(table)[j] != Objects(table)[d])
    && FindGroup(table, OBJECT_DEVICE, 0).Some? && FindGroup(table, OBJECT_DEVICE, 0).value.naming.Own?
    && (forall p :: 0 <= p < |table| && table[p].naming.Own? ==> table[p].objectType == OBJECT_DEVICE)
  }

  ghost function NameAt(table: seq<Group>, own: Word, mine: Name, j: nat): Option<Name>
    requires WellFormed(table) && j < |Objects(table)|
  {
    NameOf(table, own, mine, Objects(table)[j])
  }

  ghost predicate NamesDistinct(table: seq<Group>, own: Word, mine: Name)
    requires WellFormed(table)
  {
    forall i, j :: 0 <= i < j < |Objects(table)| && NameAt(table, own, mine, i).Some? ==>
      NameAt(table, own, mine, i) != NameAt(table, own, mine, j)
  }

  /** It is the first group of the type from p on, and there is none exactly when no group is of the type. */
  lemma {:induction false} FoundGroup(table: seq<Group>, objectType: ObjectType, p: nat)
    requires p <= |table|
    ensures match FindGroup(table, objectType, p)
      case None => forall q :: p <= q < |table| ==> table[q].objectType != objectType
      case Some(g) =>
        exists q :: p <= q < |table| && g == table[q] && g.objectType == objectType &&
          NoneBefore(table, objectType, p, q)
    decreases |table| - p
  {
    if p < |table| {
      FoundGroup(table, objectType, p + 1);
      if table[p].objectType == objectType {
        assert NoneBefore(table, objectType, p, p);
      } else if FindGroup(table, objectType, p).Some? {
        var g := FindGroup(table, objectType, p).value;
        var q :| p + 1 <= q < |table| && g == table[q] && g.objectType == objectType &&
          NoneBefore(table, objectType, p + 1, q);
        assert NoneBefore(table, objectType, p, q);
      }
    }
  }

  ghost predicate NoneBefore(table: seq<Group>, objectType: ObjectType, p: nat, q: nat)
    requires q <= |table|
  {
    forall l :: p <= l < q ==> table[l].objectType != objectType
  }

  /** The device answers to its own name; what it is called makes no difference to any other object. */
  lemma OnlyDeviceRenamed(table: seq<Group>, own: Word, d: nat, mine: Name, other: Name, j: nat)
    requires DeviceAt(table, own, d) && j < |Objects(table)|
    ensures NameAt(table, own, mine, d) == Some(mine)
    ensures j != d ==> NameAt(table, own, mine, j) == NameAt(table, own, other, j)
  {
    FoundGroup(table, Objects(table)[j].objectType, 0);
  }

  /** Another object than the device has this name. */
  ghost predicate Taken(table: seq<Group>, own: Word, d: nat, mine: Name, name: Name)
    requires WellFormed(table)
  {
    exists j :: 0 <= j < |Objects(table)| && j != d && NameAt(table, own, mine, j) == Some(name)
  }

  /** The device's changeable state: its name and its Database_Revision. */
  datatype DeviceName = DeviceName(name: Name, revision: Word)

  /** What a write of the device's Object_Name should do, `valid` being whether the string is acceptable at all. */
  ghost function Rename(table: seq<Group>, own: Word, d: nat, s: DeviceName, name: Name, valid: bool): DeviceName
    requires WellFormed(table)
  {
    if !valid || Taken(table, own, d, s.name, name) || name == s.name then s
    else DeviceName(name, (s.revision + 1) % WORD)
  }

  /** A name that is not taken keeps the names distinct. */
  lemma RenameKeepsDistinct(table: seq<Group>, own: Word, d: nat, s: DeviceName, name: Name, valid: bool)
    requires DeviceAt(table, own, d) && NamesDistinct(table, own, s.name)
    ensures NamesDistinct(table, own, Rename(table, own, d, s, name, valid).name)
  {
    var s' := Rename(table, own, d, s, name, valid);
    if s'.name != s.name {
      forall i, j | 0 <= i < j < |Objects(table)| && NameAt(table, own, name, i).Some?
        ensures NameAt(table, own, name, i) != NameAt(table, own, name, j)
      {
        OnlyDeviceRenamed(table, own, d, s.name, name, i);
        OnlyDeviceRenamed(table, own, d, s.name, name, j);
        OnlyDeviceRenamed(table, own, d, name, name, j);
      }
    }
  }

  datatype Write = Write(name: Name, valid: bool)

  ghost function RenameAll(table: seq<Group>, own: Word, d: nat, s: DeviceName, ws: seq<Write>): DeviceName
    requires WellFormed(table)
  {
    if ws == [] then s
    else
      var w := ws[|ws| - 1];
      Rename(table, own, d, RenameAll(table, own, d, s, ws[..|ws| - 1]), w.name, w.valid)
  }

  /** How many of the writes really change the name. */
  ghost function NameChanges(table: seq<Group>, own: Word, d: nat, s: DeviceName, ws: seq<Write>): nat
    requires WellFormed(table)
  {
    if ws == [] then 0
    else
      var front := ws[..|ws| - 1];
      NameChanges(table, own, d, s, front) +
      if RenameAll(table, own, d, s, ws).name == RenameAll(table, own, d, s, front).name then 0 else 1
  }

  /** Over every sequence of writes the names stay distinct, and the revision advances once for each real change. */
  lemma {:induction false} NamesStayDistinct(table: seq<Group>, own: Word, d: nat, s: DeviceName, ws: seq<Write>)
    requires DeviceAt(table, own, d) && NamesDistinct(table, own, s.name)
    ensures NamesDistinct(table, own, RenameAll(table, own, d, s, ws).name)
    ensures RenameAll(table, own, d, s, ws).revision == (s.revision + NameChanges(table, own, d, s, ws)) % WORD
    decreases |ws|
  {
    if ws != [] {
      var front, w := ws[..|ws| - 1], ws[|ws| - 1];
      NamesStayDistinct(table, own, d, s, front);
      RenameKeepsDistinct(table, own, d, RenameAll(table, own, d, s, front), w.name, w.valid);
    }
  }

  datatype WriteResult = Accepted | Invalid | DuplicateName

  /** The device's static variables. */
  class Device {
    const table: seq<Group>
    const own: Word
    ghost const d: nat
    var name: Name
    var revision: Word

    ghost predicate Valid()
      reads this
    {
      DeviceAt(table, own, d) && NamesDistinct(table, own, name)
    }

    constructor (t: seq<Group>, instance: Word, n: Name, ghost index: nat)
      requires DeviceAt(t, instance, index) && NamesDistinct(t, instance, n)
      ensures Valid() && table == t && own == instance && name == n && revision == 0
    {
      table, own, d, name, revision := t, instance, index, n, 0;
    }

    /** Device_Valid_Object_Name: the first object in the list with that name, if there is one. */
    method ValidObjectName(wanted: Name) returns (r: Option<ObjectId>)
      requires WellFormed(table) && |Objects(table)| < WORD
      // with 2^32 - 1 objects the 32-bit index never passes the last, so the loop ends only at a match
      requires |Objects(table)| == ARRAY_ALL ==>
        exists j :: 0 <= j < |Objects(table)| && NameAt(table, own, name, j) == Some(wanted)
      ensures r.None? <==> forall j :: 0 <= j < |Objects(table)| ==> NameAt(table, own, name, j) != Some(wanted)
      ensures r.Some? ==>
                exists j ::
                  && 0 <= j < |Objects(table)| && Objects(table)[j] == r.value
                  && NameAt(table, own, name, j) == Some(wanted)
                  && forall i :: 0 <= i < j ==> NameAt(table, own, name, i) != Some(wanted)
    {
      var max := ListCount(table);
      var i: Word := 1;
      while i <= max
        invariant 1 <= i && i - 1 <= max
        invariant forall j :: 0 <= j < i - 1 ==> NameAt(table, own, name, j) != Some(wanted)
      {
        var id := ListIdentifier(table, i);
        if id.Some? {
          var g := FindFunctions(table, id.value.objectType);
          var found :=
            if g.None? then None
            else match g.value.naming
              case Unnamed => None
              case Own => if id.value.instance == own then Some(name) else None
              case Named(nameOf) => nameOf(id.value.instance);
          assert found == NameAt(table, own, name, i - 1);
          if found == Some(wanted) {
            return id;
          }
        }
        i := i + 1;
      }
      return None;
    }

    /** The Object_Name case of the property write. */
    method WriteName(value: Name, valid: bool) returns (r: WriteResult)
      requires Valid()
      modifies this
      ensures Valid()
      ensures DeviceName(name, revision) == Rename(table, own, d, DeviceName(old(name), old(revision)), value, valid)
      ensures r == if !valid then Invalid else if Taken(table, own, d, old(name), value) then DuplicateName
        else Accepted
      ensures r == Accepted ==> NameAt(table, own, name, d) == Some(value)
    {
      OnlyDeviceRenamed(table, own, d, name, value, d);
      RenameKeepsDistinct(table, own, d, DeviceName(name, revision), value, valid);
      if !valid {
        return Invalid;
      }
      var holder := ValidObjectName(value);
      if holder.Some? {
        if holder.value == ObjectId(OBJECT_DEVICE, own) {
          assert NameAt(table, own, name, d) == Some(value);
          return Accepted;
        }
        return DuplicateName;
      }
      SetObjectName(value);
      OnlyDeviceRenamed(table, own, d, value, value, d);
      return Accepted;
    }

    /** Device_Set_Object_Name. */
    method SetObjectName(value: Name)
      modifies this
      ensures name == value
      ensures revision == if value == old(name) then old(revision) else (old(revision) + 1) % WORD
    {
      if name != value {
        name := value;
        revision := (revision + 1) % WORD;
      }
    }
  }
}
