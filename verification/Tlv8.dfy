/** The TLV8 codec of the HomeKit Accessory Protocol: values over 255 bytes travel as several
    fragments of one type, and the decoder merges fragments again. */
module Tlv8 {
  import opened Rtp
  import opened Seqs

  const MAX_FRAGMENT := 255

  datatype Item = Item(typ: Byte, value: Bytes)

  datatype Error = ReadLength | ReadValue

  datatype Result = Ok(items: seq<Item>) | Err(error: Error)

  // ---------- Encoding ----------

  predicate Short(fs: seq<Item>) {
    forall i :: 0 <= i < |fs| ==> |fs[i].value| <= MAX_FRAGMENT
  }

  /** One item as fragments: full ones of 255 bytes, then the rest (possibly empty). */
  function Fragments(typ: Byte, v: Bytes): (fs: seq<Item>)
    ensures Short(fs)
  {
    if |v| > MAX_FRAGMENT then [Item(typ, v[..MAX_FRAGMENT])] + Fragments(typ, v[MAX_FRAGMENT..])
    else [Item(typ, v)]
  }

  function AllFragments(items: seq<Item>): (fs: seq<Item>)
    ensures Short(fs)
  {
    if items == [] then [] else Fragments(items[0].typ, items[0].value) + AllFragments(items[1..])
  }

  function Wire(fs: seq<Item>): Bytes
    requires Short(fs)
  {
    if fs == [] then [] else [fs[0].typ, |fs[0].value|] + fs[0].value + Wire(fs[1..])
  }

  function Encode(items: seq<Item>): Bytes {
    Wire(AllFragments(items))
  }

  /** The bytes of an encoding: every item is its type, its length and its value; a value over 255 bytes
      is preceded by fragments of 255, each with the type and 255 in front. */
  lemma EncodeLayout(typ: Byte, v: Bytes, rest: seq<Item>)
    ensures Encode([]) == []
    ensures |v| <= 255 ==> Encode([Item(typ, v)] + rest) == [typ, |v|] + v + Encode(rest)
    ensures |v| > 255 ==>
              Encode([Item(typ, v)] + rest) == [typ, 255] + v[..255] + Encode([Item(typ, v[255..])] + rest)
  {
    assert ([Item(typ, v)] + rest)[1..] == rest;
    if |v| <= 255 {
      WireCons(Item(typ, v), AllFragments(rest));
    } else {
      var next := [Item(typ, v[255..])] + rest;
      assert next[1..] == rest;
      assert AllFragments([Item(typ, v)] + rest) == [Item(typ, v[..255])] + AllFragments(next);
      WireCons(Item(typ, v[..255]), AllFragments(next));
    }
  }

  // ---------- Decoding ----------

  /** n is a multiple of 255 (zero included); see MultipleIsMod. */
  predicate Multiple(n: nat) {
    n == 0 || (n >= MAX_FRAGMENT && Multiple(n - MAX_FRAGMENT))
  }

  lemma {:induction false} MultipleIsMod(n: nat)
    ensures Multiple(n) <==> n % MAX_FRAGMENT == 0
  {
    if n < MAX_FRAGMENT {
    } else {
      MultipleIsMod(n - MAX_FRAGMENT);
    }
  }

  /** Does a fragment extend the last item instead of starting a new one? */
  predicate Merges(acc: seq<Item>, f: Item) {
    && acc != []
    && acc[|acc| - 1].typ == f.typ
    && (|f.value| == MAX_FRAGMENT || Multiple(|acc[|acc| - 1].value|))
  }

  function Merge(acc: seq<Item>, f: Item): seq<Item> {
    if Merges(acc, f) then acc[..|acc| - 1] + [Item(f.typ, acc[|acc| - 1].value + f.value)]
    else acc + [f]
  }

  function MergeAll(acc: seq<Item>, fs: seq<Item>): seq<Item>
    decreases |fs|
  {
    if fs == [] then acc else MergeAll(Merge(acc, fs[0]), fs[1..])
  }

  datatype Parsed = Parsed(fs: seq<Item>) | Malformed(error: Error)

  /** The fragments from reader position `off` to the end, if they are whole. */
  function Parse(data: Bytes, off: nat): Parsed
    requires off <= |data|
    decreases |data| - off
  {
    if off == |data| then Parsed([])
    else if off + 1 == |data| then Malformed(ReadLength)
    else
      var next := off + 2 + data[off + 1];
      if next > |data| then Malformed(ReadValue)
      else match Parse(data, next)
           case Parsed(fs) => Parsed([Item(data[off], data[off + 2..next])] + fs)
           case Malformed(e) => Malformed(e)
  }

  function Finish(acc: seq<Item>, p: Parsed): Result {
    match p
    case Parsed(fs) => Ok(MergeAll(acc, fs))
    case Malformed(e) => Err(e)
  }

  function Decode(data: Bytes): Result {
    Finish([], Parse(data, 0))
  }

  // ---------- The loops of the source ----------

  lemma WireCons(f: Item, fs: seq<Item>)
    requires |f.value| <= MAX_FRAGMENT && Short(fs)
    ensures Short([f] + fs) && Wire([f] + fs) == [f.typ, |f.value|] + f.value + Wire(fs)
  {
    assert ([f] + fs)[1..] == fs;
  }

  /** `buf` is done with everything but one (partial) value and the items after it. */
  ghost predicate Ahead(buf: Bytes, typ: Byte, val: Bytes, rest: seq<Item>, all: Bytes) {
    all == buf + Wire(Fragments(typ, val) + AllFragments(rest))
  }

  lemma EmitFull(buf: Bytes, typ: Byte, val: Bytes, rest: seq<Item>, all: Bytes)
    requires Ahead(buf, typ, val, rest, all) && |val| > MAX_FRAGMENT
    ensures Ahead(buf + [typ, MAX_FRAGMENT] + val[..MAX_FRAGMENT], typ, val[MAX_FRAGMENT..], rest, all)
  {
    var f, fs := Item(typ, val[..MAX_FRAGMENT]), Fragments(typ, val[MAX_FRAGMENT..]) + AllFragments(rest);
    assert Fragments(typ, val) + AllFragments(rest) == [f] + fs;
    WireCons(f, fs);
  }

  lemma EmitLast(buf: Bytes, typ: Byte, val: Bytes, rest: seq<Item>, all: Bytes)
    requires Ahead(buf, typ, val, rest, all) && |val| <= MAX_FRAGMENT
    ensures all == buf + [typ, |val|] + val + Encode(rest)
  {
    WireCons(Item(typ, val), AllFragments(rest));
  }

  method TLV8Encode(items: seq<Item>) returns (buf: Bytes)
    ensures buf == Encode(items)
  {
    buf := [];
    ghost var all := Encode(items);
    assert items[0..] == items;
    for k := 0 to |items|
      invariant all == buf + Encode(items[k..])
    {
      var item := items[k];
      var val := item.value;
      ghost var rest := items[k + 1..];
      assert items[k..][0] == item && items[k..][1..] == rest;
      while |val| > MAX_FRAGMENT
        invariant Ahead(buf, item.typ, val, rest, all)
      {
        EmitFull(buf, item.typ, val, rest, all);
        buf := buf + [item.typ, MAX_FRAGMENT] + val[..MAX_FRAGMENT];
        val := val[MAX_FRAGMENT..];
      }
      EmitLast(buf, item.typ, val, rest, all);
      buf := buf + [item.typ, |val|] + val;
    }
  }

  /** The decoder's treatment of one fragment: two ways to extend the last item, or a new item. */
  method AddFragment(items: seq<Item>, typ: Byte, val: Bytes) returns (r: seq<Item>)
    ensures r == Merge(items, Item(typ, val))
  {
    var last := |items| - 1;
    if |items| > 0 { MultipleIsMod(|items[last].value|); }
    if |items| > 0 && items[last].typ == typ && |val| == MAX_FRAGMENT {
      r := items[..last] + [Item(typ, items[last].value + val)];
    } else if |items| > 0 && items[last].typ == typ && |items[last].value| % MAX_FRAGMENT == 0 {
      r := items[..last] + [Item(typ, items[last].value + val)];
    } else {
      r := items + [Item(typ, val)];
    }
  }

  /** What is left of the decoding once `items` have been collected up to `off`. */
  function Resume(items: seq<Item>, data: Bytes, off: nat): Result
    requires off <= |data|
  {
    Finish(items, Parse(data, off))
  }

  lemma ResumeStep(items: seq<Item>, data: Bytes, off: nat)
    requires off + 1 < |data| && off + 2 + data[off + 1] <= |data|
    ensures var next := off + 2 + data[off + 1];
            Resume(items, data, off) == Resume(Merge(items, Item(data[off], data[off + 2..next])), data, next)
  {
    var next := off + 2 + data[off + 1];
    if Parse(data, next).Parsed? {
      MergeAllCons(items, Item(data[off], data[off + 2..next]), Parse(data, next).fs);
    }
  }

  lemma ResumeEnds(items: seq<Item>, data: Bytes, off: nat)
    requires off <= |data|
    ensures off == |data| ==> Resume(items, data, off) == Ok(items)
    ensures off + 1 == |data| ==> Resume(items, data, off) == Err(ReadLength)
    ensures off + 1 < |data| && off + 2 + data[off + 1] > |data| ==> Resume(items, data, off) == Err(ReadValue)
  {
  }

  method TLV8Decode(data: Bytes) returns (r: Result)
    ensures r == Decode(data)
  {
    var items: seq<Item> := [];
    var off := 0;
    ghost var goal := Resume([], data, 0);
    while off < |data|
      invariant 0 <= off <= |data|
      invariant Resume(items, data, off) == goal
    {
      ResumeEnds(items, data, off);
      var typ := data[off];
      if off + 1 >= |data| {
        return Err(ReadLength);
      }
      var length := data[off + 1];
      if off + 2 + length > |data| {
        return Err(ReadValue);
      }
      ResumeStep(items, data, off);
      var next: int := off + 2 + length;
      var val := data[off + 2..next];
      items := AddFragment(items, typ, val);
      off := next;
    }
    ResumeEnds(items, data, off);
    return Ok(items);
  }

  // ---------- Decoding the wire form is merging the fragments ----------

  lemma HeadOfWire(data: Bytes, off: nat, typ: Byte, v: Bytes, tail: Bytes)
    requires off <= |data| && |v| <= MAX_FRAGMENT && data[off..] == [typ, |v|] + v + tail
    ensures off + 2 + |v| <= |data| && data[off] == typ && data[off + 1] == |v|
    ensures data[off + 2..off + 2 + |v|] == v && data[off + 2 + |v|..] == tail
  {
    var w := data[off..];
    assert data[off] == w[0] && data[off + 1] == w[1];
    assert data[off + 2..off + 2 + |v|] == w[2..2 + |v|] == v;
    assert data[off + 2 + |v|..] == w[2 + |v|..] == tail;
  }

  lemma SplitData(data: Bytes, off: nat, next: nat)
    requires off + 2 <= next <= |data|
    ensures data[off..] == [data[off], data[off + 1]] + data[off + 2..next] + data[next..]
  {
  }

  lemma {:induction false} ParseWire(data: Bytes, off: nat, fs: seq<Item>)
    requires Short(fs) && off <= |data| && data[off..] == Wire(fs)
    ensures Parse(data, off) == Parsed(fs)
    decreases |fs|
  {
    if fs == [] {
    } else {
      var f := fs[0];
      HeadOfWire(data, off, f.typ, f.value, Wire(fs[1..]));
      ParseWire(data, off + 2 + |f.value|, fs[1..]);
      assert [f] + fs[1..] == fs;
    }
  }

  lemma {:induction false} ParsedIsWire(data: Bytes, off: nat)
    requires off <= |data| && Parse(data, off).Parsed?
    ensures Short(Parse(data, off).fs) && data[off..] == Wire(Parse(data, off).fs)
    decreases |data| - off
  {
    if off == |data| {
    } else {
      var next := off + 2 + data[off + 1];
      ParsedIsWire(data, next);
      WireCons(Item(data[off], data[off + 2..next]), Parse(data, next).fs);
      SplitData(data, off, next);
    }
  }

  /** Decoding succeeds exactly on sequences of whole fragments, and then merges them in order. */
  lemma DecodeSucceedsIff(data: Bytes)
    ensures Decode(data).Ok? <==> exists fs :: Short(fs) && data == Wire(fs)
    ensures forall fs :: Short(fs) && data == Wire(fs) ==> Decode(data) == Ok(MergeAll([], fs))
  {
    assert data[0..] == data;
    forall fs | Short(fs) && data == Wire(fs) ensures Decode(data) == Ok(MergeAll([], fs)) {
      ParseWire(data, 0, fs);
    }
    if Decode(data).Ok? {
      ParsedIsWire(data, 0);
    }
  }

  /** Whole fragments and then a type without a length, or a length without all its bytes. */
  ghost predicate EndsInLength(data: Bytes) {
    exists fs, typ: Byte :: Short(fs) && data == Wire(fs) + [typ]
  }

  ghost predicate EndsInValue(data: Bytes) {
    exists fs, typ: Byte, n: Byte, part: Bytes :: Short(fs) && |part| < n && data == Wire(fs) + ([typ, n] + part)
  }

  lemma {:induction false} ParseBroken(data: Bytes, off: nat, fs: seq<Item>, tail: Bytes)
    requires Short(fs) && off <= |data| && data[off..] == Wire(fs) + tail
    ensures |tail| == 1 ==> Parse(data, off) == Malformed(ReadLength)
    ensures |tail| >= 2 && |tail| - 2 < tail[1] ==> Parse(data, off) == Malformed(ReadValue)
    decreases |fs|
  {
    if fs == [] {
      assert [] + tail == tail;
      assert forall i :: 0 <= i < |tail| ==> data[off + i] == tail[i];
    } else {
      var f := fs[0];
      Assoc([f.typ, |f.value|] + f.value, Wire(fs[1..]), tail);
      HeadOfWire(data, off, f.typ, f.value, Wire(fs[1..]) + tail);
      ParseBroken(data, off + 2 + |f.value|, fs[1..], tail);
    }
  }

  lemma {:induction false} BrokenIsWire(data: Bytes, off: nat) returns (fs: seq<Item>)
    requires off <= |data| && Parse(data, off).Malformed?
    ensures Short(fs) && |Wire(fs)| <= |data| - off && data[off..off + |Wire(fs)|] == Wire(fs)
    ensures var tail := data[off + |Wire(fs)|..];
            if Parse(data, off).error.ReadLength? then |tail| == 1 else |tail| >= 2 && |tail| - 2 < tail[1]
    decreases |data| - off
  {
    var next := if off + 1 < |data| then off + 2 + data[off + 1] else off + 2;
    if off + 1 == |data| || next > |data| {
      fs := [];
    } else {
      var more := BrokenIsWire(data, next);
      var f := Item(data[off], data[off + 2..next]);
      fs := [f] + more;
      WireCons(f, more);
      assert data[off..next] == [data[off], data[off + 1]] + data[off + 2..next];
      assert data[off..next + |Wire(more)|] == data[off..next] + data[next..next + |Wire(more)|];
    }
  }

  lemma {:induction false} LengthMissing(data: Bytes)
    requires EndsInLength(data)
    ensures Decode(data) == Err(ReadLength)
  {
    var fs, typ: Byte :| Short(fs) && data == Wire(fs) + [typ];
    assert data[0..] == data;
    ParseBroken(data, 0, fs, [typ]);
  }

  lemma {:induction false} ValueMissing(data: Bytes)
    requires EndsInValue(data)
    ensures Decode(data) == Err(ReadValue)
  {
    var fs, typ: Byte, n: Byte, part: Bytes :| Short(fs) && |part| < n && data == Wire(fs) + ([typ, n] + part);
    assert data[0..] == data;
    ParseBroken(data, 0, fs, [typ, n] + part);
  }

  lemma {:induction false} ErrorShape(data: Bytes)
    requires Decode(data).Err?
    ensures if Decode(data).error.ReadLength? then EndsInLength(data) else EndsInValue(data)
  {
    var fs := BrokenIsWire(data, 0);
    var tail := data[|Wire(fs)|..];
    assert data[..|Wire(fs)|] == Wire(fs) && data == data[..|Wire(fs)|] + tail;
    if Decode(data).error.ReadLength? {
      assert tail == [tail[0]];
    } else {
      assert tail == [tail[0], tail[1]] + tail[2..];
    }
  }

  /** The two errors, each exactly: the data ends behind a type, or inside a value. */
  lemma DecodeErrorIff(data: Bytes)
    ensures Decode(data) == Err(ReadLength) <==> EndsInLength(data)
    ensures Decode(data) == Err(ReadValue) <==> EndsInValue(data)
  {
    if EndsInLength(data) {
      LengthMissing(data);
    }
    if EndsInValue(data) {
      ValueMissing(data);
    }
    if Decode(data).Err? {
      ErrorShape(data);
    }
  }

  // ---------- Exact round trip ----------

  lemma {:induction false} MergeAllConcat(acc: seq<Item>, a: seq<Item>, b: seq<Item>)
    ensures MergeAll(acc, a + b) == MergeAll(MergeAll(acc, a), b)
    decreases |a|
  {
    if a == [] {
      assert a + b == b;
    } else {
      assert (a + b)[1..] == a[1..] + b;
      MergeAllConcat(Merge(acc, a[0]), a[1..], b);
    }
  }

  lemma MergeAllCons(acc: seq<Item>, f: Item, fs: seq<Item>)
    ensures MergeAll(acc, [f] + fs) == MergeAll(Merge(acc, f), fs)
  {
    assert ([f] + fs)[1..] == fs;
  }

  lemma MergeOne(acc: seq<Item>, f: Item)
    ensures MergeAll(acc, [f]) == Merge(acc, f)
  {
    assert [f] == [f] + [];
    MergeAllCons(acc, f, []);
  }

  /** Behind a value whose length is a multiple of 255, every further fragment joins it. */
  lemma {:induction false} FragmentsJoin(init: seq<Item>, typ: Byte, u: Bytes, v: Bytes)
    requires Multiple(|u|)
    ensures MergeAll(init + [Item(typ, u)], Fragments(typ, v)) == init + [Item(typ, u + v)]
    decreases |v|
  {
    var acc := init + [Item(typ, u)];
    assert acc[..|acc| - 1] == init;
    if |v| <= MAX_FRAGMENT {
      MergeOne(acc, Item(typ, v));
    } else {
      var head, rest := v[..MAX_FRAGMENT], v[MAX_FRAGMENT..];
      MergeAllCons(acc, Item(typ, head), Fragments(typ, rest));
      FragmentsJoin(init, typ, u + head, rest);
      assert u + head + rest == u + v;
    }
  }

  /** Would the first fragment of `item` run into the item before it? */
  predicate Collides(prev: Item, item: Item) {
    prev.typ == item.typ && (Multiple(|prev.value|) || |item.value| >= MAX_FRAGMENT)
  }

  lemma FreshLongItem(acc: seq<Item>, typ: Byte, head: Bytes, rest: Bytes)
    requires |head| == MAX_FRAGMENT && (acc != [] ==> acc[|acc| - 1].typ != typ)
    ensures MergeAll(acc, [Item(typ, head)] + Fragments(typ, rest)) == acc + [Item(typ, head + rest)]
  {
    MergeAllCons(acc, Item(typ, head), Fragments(typ, rest));
    FragmentsJoin(acc, typ, head, rest);
  }

  lemma FreshItem(acc: seq<Item>, item: Item)
    requires acc != [] ==> !Collides(acc[|acc| - 1], item)
    ensures MergeAll(acc, Fragments(item.typ, item.value)) == acc + [item]
  {
    if |item.value| <= MAX_FRAGMENT {
      assert !Merges(acc, item);
      MergeOne(acc, item);
    } else {
      FreshLongItem(acc, item.typ, item.value[..MAX_FRAGMENT], item.value[MAX_FRAGMENT..]);
      assert item.value[..MAX_FRAGMENT] + item.value[MAX_FRAGMENT..] == item.value;
    }
  }

  /** What merging keeps: the number of items never shrinks, and no value at an index does. */
  predicate Grows(a: seq<Item>, b: seq<Item>) {
    |a| <= |b| && forall i :: 0 <= i < |a| ==> |a[i].value| <= |b[i].value|
  }

  lemma {:induction false} MergeAllGrows(acc: seq<Item>, fs: seq<Item>)
    ensures Grows(acc, MergeAll(acc, fs))
    decreases |fs|
  {
    if fs == [] {
    } else {
      MergeAllGrows(Merge(acc, fs[0]), fs[1..]);
    }
  }

  /** The fragments of one item add at most one item. */
  lemma {:induction false} FragmentsAddOne(acc: seq<Item>, typ: Byte, v: Bytes)
    ensures |MergeAll(acc, Fragments(typ, v))| <= |acc| + 1
    decreases |v|
  {
    if |v| <= MAX_FRAGMENT {
      MergeOne(acc, Item(typ, v));
    } else {
      var head, rest := Item(typ, v[..MAX_FRAGMENT]), v[MAX_FRAGMENT..];
      MergeAllCons(acc, head, Fragments(typ, rest));
      if Merges(acc, head) {
        FragmentsAddOne(Merge(acc, head), typ, rest);
      } else {
        FragmentsJoin(acc, typ, head.value, rest);
      }
    }
  }

  lemma {:induction false} ItemsAddTheirNumber(acc: seq<Item>, items: seq<Item>)
    ensures |MergeAll(acc, AllFragments(items))| <= |acc| + |items|
    decreases |items|
  {
    if items == [] {
    } else {
      var fs := Fragments(items[0].typ, items[0].value);
      MergeAllConcat(acc, fs, AllFragments(items[1..]));
      FragmentsAddOne(acc, items[0].typ, items[0].value);
      ItemsAddTheirNumber(MergeAll(acc, fs), items[1..]);
    }
  }

  /** A colliding item disappears into its predecessor or makes it longer. */
  lemma CollisionDamages(acc: seq<Item>, item: Item)
    requires acc != [] && Collides(acc[|acc| - 1], item)
    ensures var r := MergeAll(acc, Fragments(item.typ, item.value));
            if item.value == [] then r == acc
            else |acc| <= |r| && |r[|acc| - 1].value| > |acc[|acc| - 1].value|
  {
    var fs := Fragments(item.typ, item.value);
    assert fs == [fs[0]] + fs[1..];
    MergeAllCons(acc, fs[0], fs[1..]);
    MergeAllGrows(Merge(acc, fs[0]), fs[1..]);
    if item.value == [] {
      assert fs[1..] == [] && acc[|acc| - 1].value + [] == acc[|acc| - 1].value;
    }
  }

  predicate NoCollisionFrom(items: seq<Item>, k: nat) {
    forall i :: k <= i < |items| && 0 < i ==> !Collides(items[i - 1], items[i])
  }

  lemma MergeStep(items: seq<Item>, k: nat)
    requires k < |items|
    ensures MergeAll(items[..k], AllFragments(items[k..])) ==
            MergeAll(MergeAll(items[..k], Fragments(items[k].typ, items[k].value)), AllFragments(items[k + 1..]))
  {
    assert items[k..][0] == items[k] && items[k..][1..] == items[k + 1..];
    MergeAllConcat(items[..k], Fragments(items[k].typ, items[k].value), AllFragments(items[k + 1..]));
  }

  lemma DamageLasts(acc: seq<Item>, item: Item, rest: seq<Item>)
    requires acc != [] && Collides(acc[|acc| - 1], item)
    ensures var r := MergeAll(MergeAll(acc, Fragments(item.typ, item.value)), AllFragments(rest));
            || |r| < |acc| + 1 + |rest|
            || (|acc| <= |r| && |r[|acc| - 1].value| > |acc[|acc| - 1].value|)
  {
    var mid := MergeAll(acc, Fragments(item.typ, item.value));
    CollisionDamages(acc, item);
    ItemsAddTheirNumber(mid, rest);
    MergeAllGrows(mid, AllFragments(rest));
  }

  lemma CollisionIsFatal(items: seq<Item>, k: nat)
    requires 0 < k < |items| && Collides(items[k - 1], items[k])
    ensures MergeAll(items[..k], AllFragments(items[k..])) != items
  {
    MergeStep(items, k);
    DamageLasts(items[..k], items[k], items[k + 1..]);
  }

  lemma FreshStep(items: seq<Item>, k: nat)
    requires k < |items| && (k > 0 ==> !Collides(items[k - 1], items[k]))
    ensures MergeAll(items[..k], AllFragments(items[k..])) == MergeAll(items[..k + 1], AllFragments(items[k + 1..]))
  {
    MergeStep(items, k);
    assert k > 0 ==> items[..k][k - 1] == items[k - 1];
    FreshItem(items[..k], items[k]);
    SliceSnoc(items, 0, k);
  }

  lemma {:induction false} RoundTripFrom(items: seq<Item>, k: nat)
    requires k <= |items|
    ensures MergeAll(items[..k], AllFragments(items[k..])) == items <==> NoCollisionFrom(items, k)
    decreases |items| - k
  {
    if k == |items| {
      assert items[..k] == items;
    } else if k > 0 && Collides(items[k - 1], items[k]) {
      CollisionIsFatal(items, k);
    } else {
      FreshStep(items, k);
      RoundTripFrom(items, k + 1);
    }
  }

  /** Decoding an encoding always succeeds, and gives the items back if and only if no item collides
      with its predecessor: no two adjacent items of one type where the first value's length is a
      multiple of 255 or the second value has 255 bytes or more. */
  lemma RoundTripIff(items: seq<Item>)
    ensures Decode(Encode(items)).Ok?
    ensures Decode(Encode(items)) == Ok(items) <==>
              forall i :: 0 < i < |items| && items[i - 1].typ == items[i].typ ==>
                |items[i - 1].value| % 255 != 0 && |items[i].value| < 255
  {
    forall i | 0 <= i < |items| ensures Multiple(|items[i].value|) <==> |items[i].value| % MAX_FRAGMENT == 0 {
      MultipleIsMod(|items[i].value|);
    }
    assert Encode(items)[0..] == Wire(AllFragments(items));
    ParseWire(Encode(items), 0, AllFragments(items));
    assert items[..0] == [] && items[0..] == items;
    RoundTripFrom(items, 0);
  }

  /** Items whose neighbours have different types always round-trip. */
  lemma DistinctTypesRoundTrip(items: seq<Item>)
    requires forall i :: 0 < i < |items| ==> items[i - 1].typ != items[i].typ
    ensures Decode(Encode(items)) == Ok(items)
  {
    RoundTripIff(items);
  }

  // ---------- Getters ----------

  function GetBytes(items: seq<Item>, typ: Byte): Option<Bytes> {
    if items == [] then None
    else if items[0].typ == typ then Some(items[0].value)
    else GetBytes(items[1..], typ)
  }

  method TLV8GetBytes(items: seq<Item>, typ: Byte) returns (v: Option<Bytes>)
    ensures v == GetBytes(items, typ)
    ensures v.None? <==> forall i :: 0 <= i < |items| ==> items[i].typ != typ
    ensures v.Some? ==> exists i :: 0 <= i < |items| && items[i] == Item(typ, v.value) &&
                                    forall j :: 0 <= j < i ==> items[j].typ != typ
  {
    for i := 0 to |items|
      invariant forall j :: 0 <= j < i ==> items[j].typ != typ
      invariant GetBytes(items[i..], typ) == GetBytes(items, typ)
    {
      if items[i].typ == typ {
        return Some(items[i].value);
      }
      assert items[i..][1..] == items[i + 1..];
    }
    return None;
  }

  method TLV8GetByte(items: seq<Item>, typ: Byte) returns (b: Byte, ok: bool)
    ensures ok <==> GetBytes(items, typ).Some? && GetBytes(items, typ).value != []
    ensures ok ==> b == GetBytes(items, typ).value[0]
  {
    var v := TLV8GetBytes(items, typ);
    if v.None? || |v.value| == 0 {
      return 0, false;
    }
    return v.value[0], true;
  }
}
