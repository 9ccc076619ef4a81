/** The variable store of fw/common/nvmem_vars.c as a list of tuples: its byte image, and the finite map
    that it stands for. */
module TupleStore {
  import opened MachineInts

  type Blob = seq<uint8>

  /** struct tuple: a key and a value of 1 to 255 bytes each. */
  datatype Tuple = Tuple(key: Blob, val: Blob, flags: uint8)
  {
    predicate WellFormed() { 1 <= |key| <= 255 && 1 <= |val| <= 255 }
  }

  const HEADER: nat := 3

  predicate WellFormed(ts: seq<Tuple>) {
    forall k :: 0 <= k < |ts| ==> ts[k].WellFormed()
  }

  function EncodeTuple(t: Tuple): Blob
    requires t.WellFormed()
  {
    [|t.key| as uint8, |t.val| as uint8, t.flags] + t.key + t.val
  }

  /** The tuples one after another. */
  function Encode(ts: seq<Tuple>): (b: Blob)
    requires WellFormed(ts)
  {
    if ts == [] then [] else EncodeTuple(ts[0]) + Encode(ts[1..])
  }

  /** A zero ends the tuples, and the rest of the region is erased. */
  function Image(ts: seq<Tuple>, size: nat): Blob
    requires WellFormed(ts) && |Encode(ts)| < size
  {
    Encode(ts) + [0] + seq(size - |Encode(ts)| - 1, _ => 0xff)
  }

  lemma {:induction false} EncodeAppend(ts: seq<Tuple>, us: seq<Tuple>)
    requires WellFormed(ts) && WellFormed(us)
    ensures WellFormed(ts + us) && Encode(ts + us) == Encode(ts) + Encode(us)
  {
    if ts == [] {
      assert ts + us == us;
    } else {
      hide EncodeTuple;
      EncodeAppend(ts[1..], us);
      assert (ts + us)[1..] == ts[1..] + us;
      assert WellFormed(ts + us);
      Associative(EncodeTuple(ts[0]), Encode(ts[1..]), Encode(us));
    }
  }

  lemma Associative(x: Blob, y: Blob, z: Blob)
    ensures (x + y) + z == x + (y + z)
  {}

  /** The tuples before k, tuple k, and the tuples after it. */
  lemma EncodeSplit(ts: seq<Tuple>, k: nat)
    requires WellFormed(ts) && k < |ts|
    ensures Encode(ts) == Encode(ts[..k]) + EncodeTuple(ts[k]) + Encode(ts[k + 1..])
  {
    hide EncodeTuple, Encode;
    SplitAt(ts, k);
    WellFormedParts(ts, k);
    EncodeAppend(ts[..k], ts[k..]);
    EncodeHead(ts[k..]);
    Associative(Encode(ts[..k]), EncodeTuple(ts[k]), Encode(ts[k + 1..]));
  }

  lemma SplitAt(ts: seq<Tuple>, k: nat)
    requires k < |ts|
    ensures ts == ts[..k] + ts[k..] && ts[k..][1..] == ts[k + 1..] && ts[k..][0] == ts[k]
  {}

  lemma WellFormedParts(ts: seq<Tuple>, k: nat)
    requires WellFormed(ts) && k < |ts|
    ensures WellFormed(ts[..k]) && WellFormed(ts[k..]) && WellFormed(ts[k + 1..]) && ts[k].WellFormed()
  {}

  lemma EncodeHead(ts: seq<Tuple>)
    requires WellFormed(ts) && ts != []
    ensures Encode(ts) == EncodeTuple(ts[0]) + Encode(ts[1..])
  {}

  /** Where tuple k starts, or the end of the tuples. */
  function Offset(ts: seq<Tuple>, k: nat): nat
    requires WellFormed(ts) && k <= |ts|
  {
    |Encode(ts[..k])|
  }

  lemma OffsetNext(ts: seq<Tuple>, k: nat)
    requires WellFormed(ts) && k < |ts|
    ensures Offset(ts, k + 1) == Offset(ts, k) + HEADER + |ts[k].key| + |ts[k].val|
  {
    EncodeAppend(ts[..k], [ts[k]]);
    assert ts[..k] + [ts[k]] == ts[..k + 1];
    assert [ts[k]][1..] == [];
  }

  // ---- As a map ----

  predicate NoDuplicates(ts: seq<Tuple>) {
    forall i, j :: 0 <= i < j < |ts| ==> ts[i].key != ts[j].key
  }

  /** The map that the tuples stand for; the first binding of a key counts. */
  function MapOf(ts: seq<Tuple>): map<Blob, Blob> {
    if ts == [] then map[] else MapOf(ts[1..])[ts[0].key := ts[0].val]
  }

  /** The first tuple with the key, or the number of tuples. */
  function Find(ts: seq<Tuple>, key: Blob): (k: nat)
    ensures k <= |ts|
    ensures forall i :: 0 <= i < k ==> ts[i].key != key
    ensures k < |ts| ==> ts[k].key == key
  {
    if ts == [] || ts[0].key == key then 0 else Find(ts[1..], key) + 1
  }

  /** The tuples without the first binding of the key. */
  function Without(ts: seq<Tuple>, key: Blob): seq<Tuple> {
    var k := Find(ts, key);
    if k == |ts| then ts else ts[..k] + ts[k + 1..]
  }

  lemma {:induction false} FindInMap(ts: seq<Tuple>, key: Blob)
    ensures (Find(ts, key) < |ts|) == (key in MapOf(ts))
    ensures key in MapOf(ts) ==> MapOf(ts)[key] == ts[Find(ts, key)].val
  {
    if ts != [] { FindInMap(ts[1..], key); }
  }

  lemma {:induction false} MapOfAppend(ts: seq<Tuple>, t: Tuple)
    requires Find(ts, t.key) == |ts|
    ensures MapOf(ts + [t]) == MapOf(ts)[t.key := t.val]
  {
    if ts == [] {
      assert [t][1..] == [];
    } else {
      assert (ts + [t])[1..] == ts[1..] + [t];
      MapOfAppend(ts[1..], t);
    }
  }

  lemma DropLater(ts: seq<Tuple>, k: nat)
    requires 1 <= k < |ts|
    ensures ts[..k] + ts[k + 1..] == [ts[0]] + (ts[1..][..k - 1] + ts[1..][k..])
  {
    var x, y := ts[..k] + ts[k + 1..], [ts[0]] + (ts[1..][..k - 1] + ts[1..][k..]);
    forall m | 0 <= m < |x|
      ensures x[m] == y[m]
    {}
  }

  lemma {:induction false} WithoutStep(ts: seq<Tuple>, key: Blob)
    requires ts != []
    ensures Without(ts, key) == if ts[0].key == key then ts[1..] else [ts[0]] + Without(ts[1..], key)
  {
    var k := Find(ts, key);
    if ts[0].key == key {
      assert k == 0 && ts[..0] == [];
    } else {
      assert k == Find(ts[1..], key) + 1;
      if k < |ts| { DropLater(ts, k); }
    }
  }

  lemma MapOfCons(t: Tuple, ts: seq<Tuple>)
    ensures MapOf([t] + ts) == MapOf(ts)[t.key := t.val]
  {
    assert ([t] + ts)[1..] == ts;
  }

  /** Removing the binding of a key removes it from the map and keeps the others. */
  lemma {:induction false} MapOfWithout(ts: seq<Tuple>, key: Blob)
    requires NoDuplicates(ts)
    ensures MapOf(Without(ts, key)) == MapOf(ts) - {key}
  {
    hide Without;
    if ts == [] {
      assert Without(ts, key) == [] by { EmptyWithout(key); }
    } else {
      WithoutStep(ts, key);
      FindInMap(ts[1..], key);
      if ts[0].key != key {
        MapOfWithout(ts[1..], key);
        MapOfCons(ts[0], Without(ts[1..], key));
      }
    }
  }

  lemma EmptyWithout(key: Blob)
    ensures Without([], key) == []
  {}

  lemma {:induction false} WithoutKeepsOrder(ts: seq<Tuple>, key: Blob)
    requires NoDuplicates(ts)
    ensures NoDuplicates(Without(ts, key)) && Find(Without(ts, key), key) == |Without(ts, key)|
  {
    var k := Find(ts, key);
    var rest := Without(ts, key);
    if k < |ts| {
      assert forall j :: 0 <= j < |rest| ==> rest[j] == ts[if j < k then j else j + 1];
      assert forall j :: 0 <= j < |rest| ==> rest[j].key != key;
    }
  }

  // ---- In a buffer ----

  /** The buffer starts with these tuples and the zero that ends them. */
  predicate Starts(b: Blob, ts: seq<Tuple>, size: nat) {
    && WellFormed(ts) && |Encode(ts)| < size <= |b|
    && b[..|Encode(ts)|] == Encode(ts) && b[|Encode(ts)|] == 0
  }

  /** The tuple stored at offset o. */
  predicate StoredAt(b: Blob, o: nat, t: Tuple) {
    && t.WellFormed() && o + HEADER + |t.key| + |t.val| <= |b|
    && b[o] as int == |t.key| && b[o + 1] as int == |t.val| && b[o + 2] == t.flags
    && b[o + 3..o + 3 + |t.key|] == t.key
    && b[o + 3 + |t.key|..o + 3 + |t.key| + |t.val|] == t.val
  }

  lemma MiddleSlice(b: Blob, x: Blob, c: Blob, y: Blob)
    requires |x + c + y| <= |b| && b[..|x + c + y|] == x + c + y
    ensures b[|x|..|x| + |c|] == c
  {
    var e := x + c + y;
    assert e[|x|..|x| + |c|] == c;
    assert b[|x|..|x| + |c|] == b[..|e|][|x|..|x| + |c|];
  }

  lemma StoredParts(b: Blob, o: nat, t: Tuple)
    requires t.WellFormed() && o + |EncodeTuple(t)| <= |b| && b[o..o + |EncodeTuple(t)|] == EncodeTuple(t)
    ensures |EncodeTuple(t)| == HEADER + |t.key| + |t.val| && StoredAt(b, o, t)
  {
    var c := EncodeTuple(t);
    var n, m := |t.key|, |t.val|;
    assert c[3..3 + n] == t.key && c[3 + n..3 + n + m] == t.val;
    assert b[o] == b[o..o + |c|][0] && b[o + 1] == b[o..o + |c|][1] && b[o + 2] == b[o..o + |c|][2];
    SubSlice(b, o, |c|, 3, 3 + n);
    SubSlice(b, o, |c|, 3 + n, 3 + n + m);
  }

  lemma SubSlice(b: Blob, o: nat, len: nat, i: nat, j: nat)
    requires o + len <= |b| && i <= j <= len
    ensures b[o..o + len][i..j] == b[o + i..o + j]
  {
    var x, y := b[o..o + len][i..j], b[o + i..o + j];
    forall m | 0 <= m < |y|
      ensures x[m] == y[m]
    {
      assert x[m] == b[o..o + len][i + m];
    }
  }

  /** What the buffer holds where tuple k starts. */
  lemma TupleAt(b: Blob, ts: seq<Tuple>, size: nat, k: nat)
    requires Starts(b, ts, size) && k < |ts|
    ensures Offset(ts, k) + HEADER + |ts[k].key| + |ts[k].val| == Offset(ts, k + 1) <= |Encode(ts)|
    ensures StoredAt(b, Offset(ts, k), ts[k])
  {
    hide Encode, EncodeTuple, StoredAt;
    OffsetNext(ts, k);
    EncodeSplit(ts, k);
    MiddleSlice(b, Encode(ts[..k]), EncodeTuple(ts[k]), Encode(ts[k + 1..]));
    StoredParts(b, Offset(ts, k), ts[k]);
  }

  lemma {:induction false} FindIs(ts: seq<Tuple>, key: Blob, k: nat)
    requires k <= |ts| && forall i :: 0 <= i < k ==> ts[i].key != key
    requires k < |ts| ==> ts[k].key == key
    ensures Find(ts, key) == k
  {}

  /** Moving bytes left over c. */
  lemma ShiftLeft(b: Blob, b': Blob, x: Blob, c: Blob, y: Blob, size: nat)
    requires |b'| == |b| && |x + c + y| < size <= |b| && b[..|x + c + y|] == x + c + y && b[|x + c + y|] == 0
    requires b'[..|x|] == b[..|x|] && b'[|x|..size - |c|] == b[|x + c|..size]
    ensures b'[..|x + y|] == x + y && b'[|x + y|] == 0
  {
    var moved := b'[|x|..size - |c|];
    forall i | 0 <= i < |x + y|
      ensures b'[i] == (x + y)[i]
    {
      if i < |x| {
        assert b'[i] == b'[..|x|][i] && b[i] == b[..|x|][i] && b[i] == b[..|x + c + y|][i];
      } else {
        assert b'[i] == moved[i - |x|];
        assert b[i + |c|] == b[|x + c|..size][i - |x|] && b[i + |c|] == b[..|x + c + y|][i + |c|];
      }
    }
    assert b'[|x + y|] == moved[|y|] && b[|x + c + y|] == b[|x + c|..size][|y|];
  }

  /** Moving the bytes after tuple k over it leaves a buffer with the other tuples. */
  lemma ShiftedStarts(b: Blob, b': Blob, ts: seq<Tuple>, size: nat, k: nat)
    requires Starts(b, ts, size) && k < |ts| && |b'| == |b| && Offset(ts, k) <= Offset(ts, k + 1) <= size
    requires var i, j := Offset(ts, k), Offset(ts, k + 1);
             b'[..i] == b[..i] && b'[i..size - (j - i)] == b[j..size]
    ensures Starts(b', ts[..k] + ts[k + 1..], size)
    ensures Offset(ts[..k] + ts[k + 1..], k) == Offset(ts, k)
  {
    var rest := ts[..k] + ts[k + 1..];
    EncodeSplit(ts, k);
    OffsetNext(ts, k);
    EncodeAppend(ts[..k], ts[k + 1..]);
    StoredLength(ts[k]);
    assert rest[..k] == ts[..k];
    hide Encode, EncodeTuple;
    ShiftLeft(b, b', Encode(ts[..k]), EncodeTuple(ts[k]), Encode(ts[k + 1..]), size);
  }

  lemma StoredLength(t: Tuple)
    requires t.WellFormed()
    ensures |EncodeTuple(t)| == HEADER + |t.key| + |t.val|
  {}

  lemma ImageStarts(b: Blob, ts: seq<Tuple>, size: nat)
    requires size <= |b| && WellFormed(ts) && |Encode(ts)| < size && b[..size] == Image(ts, size)
    ensures Starts(b, ts, size)
  {
    hide Encode;
    var e := Encode(ts);
    assert b[..|e|] == b[..size][..|e|] == e;
    assert b[|e|] == b[..size][|e|];
  }

  lemma ImageFrom(b: Blob, ts: seq<Tuple>, size: nat)
    requires size <= |b| && WellFormed(ts) && |Encode(ts)| < size && b[..|Encode(ts)|] == Encode(ts)
    requires b[|Encode(ts)|] == 0 && forall i :: |Encode(ts)| < i < size ==> b[i] == 0xff
    ensures b[..size] == Image(ts, size)
  {
    hide Encode;
    var e := Encode(ts);
    forall i | 0 <= i < size
      ensures b[..size][i] == Image(ts, size)[i]
    {
      if i < |e| { assert b[i] == b[..|e|][i]; }
    }
  }

  /** A key compares equal with the bytes of a stored tuple exactly when it is the tuple's key. */
  lemma SameKey(b: Blob, o: nat, t: Tuple, key: Blob)
    requires StoredAt(b, o, t)
    ensures b[o] as int == |key| && o + 3 + |key| <= |b| && b[o + 3..o + 3 + |key|] == key <==> t.key == key
  {}

  lemma EndOffset(ts: seq<Tuple>)
    requires WellFormed(ts)
    ensures Offset(ts, |ts|) == |Encode(ts)| && Offset(ts, 0) == 0
  {
    assert ts[..|ts|] == ts;
  }

  /** The example in the implementation notes of fw/common/nvmem_vars.c: A is bound to ab, and B to cde. */
  lemma DocumentedExample()
    ensures var ts := [Tuple([0x41], [0x61, 0x62], 0), Tuple([0x42], [0x63, 0x64, 0x65], 0)];
      WellFormed(ts) &&
      Encode(ts) == [0x01, 0x02, 0x00, 0x41, 0x61, 0x62, 0x01, 0x03, 0x00, 0x42, 0x63, 0x64, 0x65]
  {
    var t, u := Tuple([0x41], [0x61, 0x62], 0), Tuple([0x42], [0x63, 0x64, 0x65], 0);
    assert [t, u][1..] == [u] && [u][1..] == [];
    assert Encode([u]) == EncodeTuple(u);
    assert Encode([t, u]) == EncodeTuple(t) + EncodeTuple(u);
  }

  // ---- The bytes that a map takes ----

  function BindingSize(key: Blob, val: Blob): nat { 3 + |key| + |val| }

  /** Three bytes for each binding, its key and its value. */
  ghost function MapSize(m: map<Blob, Blob>): nat
    decreases |m|
  {
    if m == map[] then 0
    else
      var key :| key in m;
      assert |m - {key}| < |m| by { FewerKeys(m, key); }
      BindingSize(key, m[key]) + MapSize(m - {key})
  }

  lemma FewerKeys(m: map<Blob, Blob>, key: Blob)
    requires key in m
    ensures |m - {key}| < |m|
  {
    assert (m - {key}).Keys == m.Keys - {key};
    assert |(m - {key}).Keys| == |m - {key}| && |m.Keys| == |m|;
  }

  /** In whichever order the bindings are counted. */
  lemma {:induction false} MapSizeWithout(m: map<Blob, Blob>, key: Blob)
    requires key in m
    ensures MapSize(m) == BindingSize(key, m[key]) + MapSize(m - {key})
    decreases |m|
  {
    hide BindingSize;
    var first :| first in m && MapSize(m) == BindingSize(first, m[first]) + MapSize(m - {first});
    if first != key {
      FewerKeys(m, first);
      FewerKeys(m, key);
      MapSizeWithout(m - {first}, key);
      MapSizeWithout(m - {key}, first);
      assert m - {first} - {key} == m - {key} - {first};
    }
  }

  /** The tuples take the bytes of their map. */
  lemma {:induction false} EncodeSize(ts: seq<Tuple>)
    requires WellFormed(ts) && NoDuplicates(ts)
    ensures |Encode(ts)| == MapSize(MapOf(ts))
  {
    hide EncodeTuple;
    if ts != [] {
      EncodeSize(ts[1..]);
      FindInMap(ts[1..], ts[0].key);
      TupleSize(ts[0]);
      MapSizeWithout(MapOf(ts), ts[0].key);
      assert MapOf(ts) - {ts[0].key} == MapOf(ts[1..]);
    }
  }

  lemma TupleSize(t: Tuple)
    requires t.WellFormed()
    ensures |EncodeTuple(t)| == BindingSize(t.key, t.val)
  {}
}
