/** setvar, getvar and initvars of fw/common/nvmem_vars.c on the RAM copy of the variable region. The
    buffer has two spare bytes: the comparison in match_key_at may look past the region. */
module NvmemVars {
  import opened MachineInts
  import opened Bits
  import opened TupleStore

  /** x | y */
  function Or8(x: uint8, y: uint8): (r: uint8)
    ensures r == 0 <==> x == 0 && y == 0
  {
    Pow2Values();
    InRange(OR, x as int, y as int, 8);
    OrIsZero(x as int, y as int);
    Or(x as int, y as int) as uint8
  }

  /** x ^ y */
  function Xor8(x: uint8, y: uint8): (r: uint8)
    ensures r == 0 <==> x == y
  {
    Pow2Values();
    InRange(XOR, x as int, y as int, 8);
    XorIsZero(x as int, y as int);
    XorSign(x as int, y as int);
    Xor(x as int, y as int) as uint8
  }

  lemma XorSign(x: int, y: int)
    requires 0 <= x && 0 <= y
    ensures Xor(x, y) >= 0
    decreases x + y
  {
    if x != 0 || y != 0 { XorSign(x / 2, y / 2); }
  }

  datatype Status = Success | Invalid | Overflow

  class NvmemVars {
    const size: nat
    const rbuf: array<uint8>
    ghost var tuples: seq<Tuple>

    /** The local copy of the region as read from flash. */
    constructor (size: nat, flash: Blob)
      requires 0 < size && |flash| == size + 2
      ensures Shape() && this.size == size && fresh(rbuf) && rbuf[..] == flash
    {
      this.size := size;
      rbuf := new uint8[|flash|](i requires 0 <= i < |flash| => flash[i]);
      tuples := [];
    }

    predicate Shape()
    {
      0 < size && rbuf.Length == size + 2
    }

    /** The region is the image of the tuples. */
    ghost predicate Valid()
      reads this, rbuf
    {
      && Shape() && WellFormed(tuples) && |Encode(tuples)| < size
      && rbuf[..size] == Image(tuples, size)
    }

    /** match_key_at: compares without an early exit. */
    method MatchKeyAt(idx: nat, key: Blob) returns (same: bool)
      requires Shape() && idx < size && 1 <= |key| <= 255
      ensures same <==>
        |key| <= size - idx - 1 && rbuf[idx] as int == |key| && rbuf[idx + 3..idx + 3 + |key|] == key
    {
      hide Or8, Xor8;
      var maxLen := if |key| < size - idx - 1 then |key| else size - idx - 1;
      var diffs := Xor8(maxLen as uint8, |key| as uint8);
      diffs := Or8(diffs, Xor8(rbuf[idx], |key| as uint8));
      var i := 0;
      while i < maxLen
        invariant 0 <= i <= maxLen
        invariant diffs == 0 <==>
          maxLen == |key| && rbuf[idx] as int == |key| && forall j :: 0 <= j < i ==> rbuf[idx + 3 + j] == key[j]
      {
        diffs := Or8(diffs, Xor8(rbuf[idx + 3 + i], key[i]));
        i := i + 1;
      }
      same := diffs == 0;
      if maxLen == |key| {
        ghost var data := rbuf[idx + 3..idx + 3 + |key|];
        assert forall j :: 0 <= j < |key| ==> data[j] == rbuf[idx + 3 + j];
      }
    }

    /** next_tuple */
    method NextTuple(idx: nat) returns (more: bool, j: nat)
      requires Shape() && idx < size
      requires rbuf[idx] != 0 ==> idx + HEADER + rbuf[idx] as int + rbuf[idx + 1] as int < size
      ensures rbuf[idx] == 0 ==> !more && j == idx
      ensures rbuf[idx] != 0 ==>
        j == idx + HEADER + rbuf[idx] as int + rbuf[idx + 1] as int && (more <==> rbuf[j] != 0)
    {
      if rbuf[idx] == 0 {
        return false, idx;
      }
      j := idx + HEADER + rbuf[idx] as int + rbuf[idx + 1] as int;
      more := rbuf[j] != 0;
    }

    /** getvar_idx from index 0: the tuple with the key, or where a new tuple goes. */
    method GetVarIdx(key: Blob, ghost ts: seq<Tuple>) returns (found: bool, i: nat)
      requires Shape() && 1 <= |key| <= 255 && Starts(rbuf[..], ts, size)
      ensures found == (Find(ts, key) < |ts|) && i == Offset(ts, Find(ts, key))
    {
      hide Starts, Encode, Offset;
      ghost var k := 0;
      i := 0;
      EndOfTuples(rbuf[..], ts, size);
      EndOffset(ts);
      while true
        invariant k <= |ts| && i == Offset(ts, k) && (k < |ts| || ts == [])
        invariant forall m :: 0 <= m < k ==> ts[m].key != key
        decreases |ts| - k
      {
        EndOfTuples(rbuf[..], ts, size);
        if k < |ts| { TupleAt(rbuf[..], ts, size, k); SameKey(rbuf[..], i, ts[k], key); }
        var same := MatchKeyAt(i, key);
        if same {
          FindIs(ts, key, k);
          return true, i;
        }
        if k + 1 < |ts| { TupleAt(rbuf[..], ts, size, k + 1); }
        var more, j := NextTuple(i);
        i := j;
        if k < |ts| { k := k + 1; }
        if !more {
          FindIs(ts, key, k);
          return false, i;
        }
      }
    }

    /** Deletes the tuple at index i by moving the ones after it over it; returns where a new tuple goes. */
    method Remove(key: Blob, i: nat, ghost ts: seq<Tuple>) returns (end: nat)
      requires Shape() && Starts(rbuf[..], ts, size)
      requires Find(ts, key) < |ts| && i == Offset(ts, Find(ts, key))
      modifies rbuf
      ensures WellFormed(Without(ts, key)) && end == |Encode(Without(ts, key))| < size
      ensures rbuf[..end] == Encode(Without(ts, key))
    {
      hide Starts, Encode, Offset, StoredAt;
      ghost var k := Find(ts, key);
      ghost var rest := Without(ts, key);
      EndOfTuples(rbuf[..], ts, size);
      TupleAt(rbuf[..], ts, size, k);
      StoredNumbers(rbuf[..], i, ts[k]);
      var more, j := NextTuple(i);
      end := i;
      if k + 1 < |ts| {
        TupleAt(rbuf[..], ts, size, k + 1);
        StoredNumbers(rbuf[..], j, ts[k + 1]);
      }
      assert more == (k + 1 < |ts|);
      if more {
        MoveLeft(i, j);
        ShiftedStarts(old(rbuf[..]), rbuf[..], ts, size, k);
        end := SkipToEnd(i, rest, k);
        EndOfTuples(rbuf[..], rest, size);
        StartsPrefix(rbuf[..], rest, size);
      } else {
        assert rest == ts[..k];
        PrefixAt(rbuf[..], ts, size, k);
      }
    }

    /** memmove(rbuf + i, rbuf + j, size - j) */
    method MoveLeft(i: nat, j: nat)
      requires Shape() && i <= j <= size
      modifies rbuf
      ensures rbuf[..i] == old(rbuf[..i]) && rbuf[i..size - (j - i)] == old(rbuf[j..size])
    {
      forall m | i <= m < size - (j - i) {
        rbuf[m] := rbuf[m + (j - i)];
      }
      forall k | 0 <= k < size - j
        ensures rbuf[i..size - (j - i)][k] == old(rbuf[j..size])[k]
      {
        assert rbuf[i + k] == old(rbuf[(i + k) + (j - i)]);
      }
    }

    /** while (next_tuple(&i)); */
    method SkipToEnd(start: nat, ghost ts: seq<Tuple>, ghost k0: nat) returns (i: nat)
      requires Shape() && Starts(rbuf[..], ts, size) && k0 < |ts| && start == Offset(ts, k0)
      ensures i == Offset(ts, |ts|)
    {
      hide Starts, Encode, Offset, StoredAt;
      EndOfTuples(rbuf[..], ts, size);
      ghost var k := k0;
      i := start;
      while true
        invariant k < |ts| && i == Offset(ts, k)
        decreases |ts| - k
      {
        TupleAt(rbuf[..], ts, size, k);
        StoredNumbers(rbuf[..], i, ts[k]);
        if k + 1 < |ts| {
          TupleAt(rbuf[..], ts, size, k + 1);
          StoredNumbers(rbuf[..], Offset(ts, k + 1), ts[k + 1]);
        }
        var more, j := NextTuple(i);
        i := j;
        if !more { return; }
        k := k + 1;
      }
    }

    /** Writes a tuple at the end of the tuples and moves past it. */
    method Append(i: nat, key: Blob, val: Blob, ghost ts: seq<Tuple>) returns (end: nat)
      requires Shape() && WellFormed(ts) && Tuple(key, val, 0).WellFormed()
      requires i == |Encode(ts)| && i + HEADER + |key| + |val| + 1 <= size
      requires rbuf[..i] == Encode(ts)
      modifies rbuf
      ensures WellFormed(ts + [Tuple(key, val, 0)])
      ensures end == |Encode(ts + [Tuple(key, val, 0)])| < size && rbuf[..end] == Encode(ts + [Tuple(key, val, 0)])
    {
      hide Encode;
      ghost var t := Tuple(key, val, 0);
      ghost var before := rbuf[..i];
      WriteTuple(i, key, val);
      var more, j := NextTuple(i);
      end := j;
      AppendOne(ts, t);
      StoredLength(t);
      assert rbuf[..end] == rbuf[..i] + rbuf[i..end];
    }

    method WriteTuple(i: nat, key: Blob, val: Blob)
      requires Shape() && Tuple(key, val, 0).WellFormed() && i + HEADER + |key| + |val| + 1 <= size
      modifies rbuf
      ensures rbuf[..i] == old(rbuf[..i])
      ensures rbuf[i..i + HEADER + |key| + |val|] == EncodeTuple(Tuple(key, val, 0))
      ensures rbuf[i] as int == |key| && rbuf[i + 1] as int == |val|
    {
      rbuf[i] := |key| as uint8;
      rbuf[i + 1] := |val| as uint8;
      rbuf[i + 2] := 0;
      forall m | 0 <= m < |key| { rbuf[i + 3 + m] := key[m]; }
      forall m | 0 <= m < |val| { rbuf[i + 3 + |key| + m] := val[m]; }
      ghost var n := HEADER + |key| + |val|;
      forall m | 0 <= m < n
        ensures rbuf[i..i + n][m] == EncodeTuple(Tuple(key, val, 0))[m]
      {
        assert rbuf[i..i + n][m] == rbuf[i + m];
        if m >= 3 && m < 3 + |key| { assert rbuf[i + 3 + (m - 3)] == key[m - 3]; }
        if m >= 3 + |key| { assert rbuf[i + 3 + |key| + (m - 3 - |key|)] == val[m - 3 - |key|]; }
      }
    }

    /** Marks the end and erases the rest. */
    method MarkEnd(i: nat, ghost ts: seq<Tuple>)
      requires Shape() && WellFormed(ts) && i == |Encode(ts)| < size && rbuf[..i] == Encode(ts)
      modifies rbuf
      ensures rbuf[..size] == Image(ts, size)
    {
      hide Encode, Image;
      rbuf[i] := 0;
      forall m | i + 1 <= m < size { rbuf[m] := 0xff; }
      assert rbuf[..i] == old(rbuf[..i]);
      ImageFrom(rbuf[..], ts, size);
    }

    /** setvar: an empty key is refused; otherwise the old binding goes, and a new one is added at the end
        if there is a value and it fits. */
    method SetVar(key: Blob, val: Blob) returns (rv: Status)
      requires Valid() && |key| <= 255 && |val| <= 255
      modifies this, rbuf
      ensures Valid()
      ensures rv == SetStatus(old(tuples), key, val, size)
      ensures tuples == AfterSet(old(tuples), key, val, size)
      ensures rv == Invalid <==> key == []
      ensures NoDuplicates(old(tuples)) ==>
        (rv == Overflow <==> key != [] && !Fits(MapOf(old(tuples)), key, val, size))
    {
      hide Encode, Image, Starts, Find, Without, Offset;
      if |key| == 0 {
        return Invalid;
      }
      ghost var ts := tuples;
      if NoDuplicates(ts) { OverflowsExactly(ts, key, val, size); }
      hide Fits, MapOf, NoDuplicates;
      ghost var rest := Without(ts, key);
      ImageStarts(rbuf[..], ts, size);
      WithoutWellFormed(ts, key);
      var found, i := GetVarIdx(key, ts);
      if found {
        i := Remove(key, i, ts);
      } else {
        NotFound(rbuf[..], ts, size, key);
      }
      assert i == |Encode(rest)| < size && rbuf[..i] == Encode(rest);
      tuples := rest;
      rv := Success;
      if |val| != 0 {
        if i + HEADER + |key| + |val| + 1 > size {
          rv := Overflow;
        } else {
          i := Append(i, key, val, rest);
          tuples := rest + [Tuple(key, val, 0)];
        }
      }
      MarkEnd(i, tuples);
    }

    /** getvar: the index of the binding of the key, if there is one. */
    method GetVar(key: Blob) returns (found: bool, i: nat)
      requires Valid() && |key| <= 255
      ensures found == (key != [] && key in MapOf(tuples))
      ensures found ==> i + HEADER <= size && i + HEADER + rbuf[i] as int + rbuf[i + 1] as int <= size
      ensures found ==> KeyAt(i) == key
      ensures found ==> ValAt(i) == MapOf(tuples)[key]
    {
      hide Encode, Image, Starts, Offset, Find, MapOf;
      if |key| == 0 {
        return false, 0;
      }
      ImageStarts(rbuf[..], tuples, size);
      FindInMap(tuples, key);
      found, i := GetVarIdx(key, tuples);
      if found {
        EndOfTuples(rbuf[..], tuples, size);
        TupleAt(rbuf[..], tuples, size, Find(tuples, key));
      }
    }

    /** initvars: keeps the region if it parses as tuples, a zero and an erased rest; otherwise makes it
        the empty store. */
    method InitVars() returns (kept: bool)
      requires Shape()
      modifies this, rbuf
      ensures Valid()
      ensures kept <==> exists ts :: ParsesAs(old(rbuf[..]), ts, size)
      ensures kept ==> rbuf[..] == old(rbuf[..])
      ensures !kept ==> tuples == []
    {
      hide Encode, Image, TupleFrom;
      kept, tuples := Check();
      if !kept {
        tuples := [];
        EmptyEncoding();
        MarkEnd(0, []);
      }
    }

    method Check() returns (kept: bool, ghost ts: seq<Tuple>)
      requires Shape()
      ensures kept ==> ParsesAs(rbuf[..], ts, size)
      ensures !kept ==> forall us :: !ParsesAs(rbuf[..], us, size)
    {
      hide Encode, ParsesAs, Image, TupleFrom, EncodeTuple, StoredAt;
      var i := 0;
      ts := [];
      EmptyEncoding();
      while true
        invariant WellFormed(ts) && i == |Encode(ts)| < size
        invariant rbuf[..i] == Encode(ts) && BeginsAllParses(rbuf[..], ts, size)
        decreases size - i
      {
        if rbuf[i] == 0 {
          break;
        }
        if rbuf[i + 1] == 0 {
          NoParse(rbuf[..], ts, size);
          return false, ts;
        }
        var len := HEADER + rbuf[i] as int + rbuf[i + 1] as int;
        if i + len >= size {
          NoParse(rbuf[..], ts, size);
          return false, ts;
        }
        OneMoreParsed(rbuf[..], ts, size);
        ts := ts + [TupleFrom(rbuf[..], i)];
        i := i + len;
      }
      i := i + 1;
      while i < size
        invariant |Encode(ts)| < i <= size
        invariant forall m :: |Encode(ts)| < m < i ==> rbuf[m] == 0xff
      {
        if rbuf[i] != 0xff {
          NoParse(rbuf[..], ts, size);
          return false, ts;
        }
        i := i + 1;
      }
      kept := true;
      Parsed(rbuf[..], ts, size);
    }

    /** tuple_key */
    function KeyAt(i: nat): Blob
      requires i + 1 < rbuf.Length && i + HEADER + rbuf[i] as int <= rbuf.Length
      reads rbuf
    {
      rbuf[i + HEADER..i + HEADER + rbuf[i] as int]
    }

    /** tuple_val */
    function ValAt(i: nat): Blob
      requires i + 1 < rbuf.Length && i + HEADER + rbuf[i] as int + rbuf[i + 1] as int <= rbuf.Length
      reads rbuf
    {
      rbuf[i + HEADER + rbuf[i] as int..i + HEADER + rbuf[i] as int + rbuf[i + 1] as int]
    }
  }

  /** The map with the new binding, and the zero after it, take no more bytes than there are. */
  ghost predicate Fits(m: map<Blob, Blob>, key: Blob, val: Blob, size: nat) {
    val == [] || MapSize(m[key := val]) + 1 <= size
  }

  /** What setvar returns. */
  function SetStatus(ts: seq<Tuple>, key: Blob, val: Blob, size: nat): Status
    requires WellFormed(ts)
  {
    WithoutWellFormed(ts, key);
    var rest := Without(ts, key);
    if key == [] then Invalid
    else if val != [] && |Encode(rest)| + HEADER + |key| + |val| + 1 > size then Overflow
    else Success
  }

  /** The tuples that setvar leaves. */
  function AfterSet(ts: seq<Tuple>, key: Blob, val: Blob, size: nat): seq<Tuple>
    requires WellFormed(ts)
  {
    match SetStatus(ts, key, val, size)
    case Invalid => ts
    case Overflow => Without(ts, key)
    case Success => Without(ts, key) + if val == [] then [] else [Tuple(key, val, 0)]
  }

  /** The capacity of the store: setvar overflows exactly when the map with the new binding does not fit. */
  lemma OverflowsExactly(ts: seq<Tuple>, key: Blob, val: Blob, size: nat)
    requires WellFormed(ts) && NoDuplicates(ts) && |key| <= 255 && |val| <= 255
    ensures SetStatus(ts, key, val, size) ==
      if key == [] then Invalid else if Fits(MapOf(ts), key, val, size) then Success else Overflow
  {
    hide Without, NoDuplicates, MapOf, Find, Encode;
    var m, rest := MapOf(ts), Without(ts, key);
    WithoutWellFormed(ts, key);
    WithoutKeepsOrder(ts, key);
    MapOfWithout(ts, key);
    EncodeSize(rest);
    MapSizeWithout(m[key := val], key);
    assert m[key := val] - {key} == m - {key};
  }

  /** What setvar does to the map: success binds the key or, without a value, unbinds it; overflow unbinds
      it; no other binding changes. */
  lemma SetIsMapUpdate(ts: seq<Tuple>, key: Blob, val: Blob, size: nat)
    requires WellFormed(ts) && NoDuplicates(ts) && |key| <= 255 && |val| <= 255
    ensures var ts' := AfterSet(ts, key, val, size);
            && WellFormed(ts') && NoDuplicates(ts')
            && MapOf(ts') == match SetStatus(ts, key, val, size)
                             case Invalid => MapOf(ts)
                             case Overflow => MapOf(ts) - {key}
                             case Success => if val == [] then MapOf(ts) - {key} else MapOf(ts)[key := val]
  {
    hide Without, NoDuplicates, MapOf, Find, Encode;
    var rest := Without(ts, key);
    WithoutWellFormed(ts, key);
    WithoutKeepsOrder(ts, key);
    MapOfWithout(ts, key);
    if key != [] && val != [] {
      AddedOnce(rest, Tuple(key, val, 0));
      MapOfAppend(rest, Tuple(key, val, 0));
      assert (MapOf(ts) - {key})[key := val] == MapOf(ts)[key := val];
    }
    assert rest + [] == rest;
  }

  // ---- Runs of setvar from the empty store ----

  datatype Request = Request(key: Blob, val: Blob)

  predicate Requests(reqs: seq<Request>) {
    forall k :: 0 <= k < |reqs| ==> |reqs[k].key| <= 255 && |reqs[k].val| <= 255
  }

  ghost predicate IsRun(states: seq<seq<Tuple>>, reqs: seq<Request>, size: nat) {
    && |states| == |reqs| + 1 && Requests(reqs)
    && states[0] == []
    && (forall k :: 0 <= k < |states| ==> WellFormed(states[k]))
    && forall k :: 0 <= k < |reqs| ==> states[k + 1] == AfterSet(states[k], reqs[k].key, reqs[k].val, size)
  }

  lemma {:induction false} RunHasNoDuplicates(states: seq<seq<Tuple>>, reqs: seq<Request>, size: nat, n: nat)
    requires IsRun(states, reqs, size) && n < |states|
    ensures NoDuplicates(states[n])
  {
    hide AfterSet, MapOf, SetStatus, Encode;
    if n > 0 {
      RunHasNoDuplicates(states, reqs, size, n - 1);
      SetIsMapUpdate(states[n - 1], reqs[n - 1].key, reqs[n - 1].val, size);
    }
  }

  /** After any run the last request for a key decides: the key is bound to that request's value if the
      request has one and it fits, and unbound otherwise. */
  lemma {:induction false} LastRequestDecides(states: seq<seq<Tuple>>, reqs: seq<Request>, size: nat,
                                              key: Blob, last: nat, n: nat)
    requires IsRun(states, reqs, size) && last < n < |states| && key != []
    requires reqs[last].key == key && forall k :: last < k < n ==> reqs[k].key != key
    ensures key in MapOf(states[n]) <==>
      reqs[last].val != [] && Fits(MapOf(states[last]), key, reqs[last].val, size)
    ensures key in MapOf(states[n]) ==> MapOf(states[n])[key] == reqs[last].val
    decreases n
  {
    hide AfterSet, MapOf, SetStatus, Encode, NoDuplicates;
    RunHasNoDuplicates(states, reqs, size, n - 1);
    SetIsMapUpdate(states[n - 1], reqs[n - 1].key, reqs[n - 1].val, size);
    if last < n - 1 {
      LastRequestDecides(states, reqs, size, key, last, n - 1);
    } else {
      OverflowsExactly(states[last], key, reqs[last].val, size);
    }
  }

  lemma {:induction false} NeverRequested(states: seq<seq<Tuple>>, reqs: seq<Request>, size: nat, key: Blob, n: nat)
    requires IsRun(states, reqs, size) && n < |states|
    requires forall k :: 0 <= k < n ==> reqs[k].key != key
    ensures key !in MapOf(states[n])
  {
    hide AfterSet, SetStatus, Encode, NoDuplicates;
    if n > 0 {
      hide MapOf;
      NeverRequested(states, reqs, size, key, n - 1);
      RunHasNoDuplicates(states, reqs, size, n - 1);
      SetIsMapUpdate(states[n - 1], reqs[n - 1].key, reqs[n - 1].val, size);
    }
  }

  /** initvars accepts a region that binds a key twice, and no setvar makes one. There, deleting a key
      brings back its second binding: deleting unbinds the key exactly if it was not bound twice. */
  lemma DeletingUnbinds(ts: seq<Tuple>, key: Blob)
    ensures key !in MapOf(Without(ts, key)) <==>
              forall i, j :: 0 <= i < j < |ts| ==> ts[i].key != key || ts[j].key != key
  {
    var k := Find(ts, key);
    var rest := Without(ts, key);
    FindInMap(rest, key);
    if k < |ts| {
      assert forall j :: k < j < |ts| ==> rest[j - 1] == ts[j];
      assert forall j :: k <= j < |rest| ==> rest[j] == ts[j + 1];
    }
  }

  /** A region that binds a key twice, and that initvars keeps: after setvar has deleted the key, getvar
      still finds it. */
  lemma DuplicateIsAccepted() returns (b: Blob, ts: seq<Tuple>)
    ensures |b| == 18 && ParsesAs(b, ts, 16) && !NoDuplicates(ts)
    ensures SetStatus(ts, [1], [], 16) == Success
    ensures [1] in MapOf(AfterSet(ts, [1], [], 16)) && MapOf(AfterSet(ts, [1], [], 16))[[1]] == [3]
  {
    var t, u := Tuple([1], [2], 0), Tuple([1], [3], 0);
    ts := [t, u];
    assert ts[1..] == [u] && [u][1..] == [];
    EmptyEncoding();
    assert Encode([u]) == EncodeTuple(u);
    assert Encode(ts) == EncodeTuple(t) + EncodeTuple(u);
    b := Image(ts, 16) + [0xff, 0xff];
    assert b[..16] == Image(ts, 16);
    assert Find(ts, [1]) == 0;
    assert Without(ts, [1]) == [u];
    assert AfterSet(ts, [1], [], 16) == [u];
  }

  // ---- Parsing ----

  /** The region is exactly the image of the tuples. */
  ghost predicate ParsesAs(b: Blob, ts: seq<Tuple>, size: nat) {
    size <= |b| && WellFormed(ts) && |Encode(ts)| < size && b[..size] == Image(ts, size)
  }

  /** Any parse of the region begins with these tuples. */
  ghost predicate BeginsAllParses(b: Blob, ts: seq<Tuple>, size: nat) {
    forall us :: ParsesAs(b, us, size) ==> ts <= us
  }

  /** The tuple whose header is at i. */
  function TupleFrom(b: Blob, i: nat): (t: Tuple)
    requires i + HEADER <= |b| && i + HEADER + b[i] as int + b[i + 1] as int <= |b|
    ensures b[i] != 0 && b[i + 1] != 0 ==> StoredAt(b, i, t)
  {
    var n, m := b[i] as int, b[i + 1] as int;
    Tuple(b[i + 3..i + 3 + n], b[i + 3 + n..i + 3 + n + m], b[i + 2])
  }

  lemma StoredOnce(b: Blob, i: nat, t: Tuple)
    requires StoredAt(b, i, t)
    ensures t == TupleFrom(b, i) && EncodeTuple(t) == b[i..i + HEADER + |t.key| + |t.val|]
  {
    var n := HEADER + |t.key| + |t.val|;
    forall m | 0 <= m < n
      ensures b[i..i + n][m] == EncodeTuple(t)[m]
    {
      if 3 <= m < 3 + |t.key| { assert b[i + m] == b[i + 3..i + 3 + |t.key|][m - 3]; }
      if 3 + |t.key| <= m { assert b[i + m] == b[i + 3 + |t.key|..i + n][m - 3 - |t.key|]; }
    }
  }

  /** A parse that begins with ts goes on with the tuple found after them, if there is one. */
  lemma ParseGoesOn(b: Blob, ts: seq<Tuple>, us: seq<Tuple>, size: nat)
    requires ParsesAs(b, us, size) && WellFormed(ts) && ts <= us
    ensures var i := |Encode(ts)|;
            && i < size
            && (b[i] == 0 ==> us == ts && forall m :: i < m < size ==> b[m] == 0xff)
            && (b[i] != 0 ==>
                 && i + HEADER <= size && b[i + 1] != 0 && i + HEADER + b[i] as int + b[i + 1] as int < size
                 && ts + [TupleFrom(b, i)] <= us)
  {
    hide Encode, Image, StoredAt;
    var k := |ts|;
    assert us[..k] == ts;
    ImageStarts(b, us, size);
    EndOfTuples(b, us, size);
    if k < |us| {
      TupleAt(b, us, size, k);
      StoredNumbers(b, Offset(us, k), us[k]);
      StoredOnce(b, Offset(us, k), us[k]);
    } else {
      assert us == ts;
      ImageTail(b, us, size);
    }
  }

  lemma ImageTail(b: Blob, ts: seq<Tuple>, size: nat)
    requires ParsesAs(b, ts, size)
    ensures forall m :: |Encode(ts)| < m < size ==> b[m] == 0xff
  {
    hide Encode;
    forall m | |Encode(ts)| < m < size
      ensures b[m] == 0xff
    {
      assert b[m] == b[..size][m];
    }
  }

  lemma OneMoreParsed(b: Blob, ts: seq<Tuple>, size: nat)
    requires size <= |b| && WellFormed(ts) && BeginsAllParses(b, ts, size)
    requires var i := |Encode(ts)|;
             i + HEADER <= |b| && b[..i] == Encode(ts) && b[i] != 0 && b[i + 1] != 0
             && i + HEADER + b[i] as int + b[i + 1] as int < size
    ensures var i := |Encode(ts)|;
            var more := ts + [TupleFrom(b, i)];
            && WellFormed(more) && |Encode(more)| == i + HEADER + b[i] as int + b[i + 1] as int
            && b[..|Encode(more)|] == Encode(more) && BeginsAllParses(b, more, size)
  {
    hide Encode, EncodeTuple, ParsesAs, StoredAt;
    var i := |Encode(ts)|;
    var t := TupleFrom(b, i);
    StoredNumbers(b, i, t);
    StoredOnce(b, i, t);
    AppendOne(ts, t);
    StoredLength(t);
    assert b[..i] + b[i..i + HEADER + |t.key| + |t.val|] == b[..i + HEADER + |t.key| + |t.val|];
    forall us | ParsesAs(b, us, size)
      ensures ts + [t] <= us
    {
      ParseGoesOn(b, ts, us, size);
    }
  }

  /** What the parser finds decides whether there is a parse. */
  lemma NoParse(b: Blob, ts: seq<Tuple>, size: nat)
    requires 0 < size && |b| == size + 2 && WellFormed(ts) && |Encode(ts)| < size && BeginsAllParses(b, ts, size)
    requires var i := |Encode(ts)|;
             if b[i] == 0 then exists m :: i < m < size && b[m] != 0xff
             else b[i + 1] == 0 || i + HEADER + b[i] as int + b[i + 1] as int >= size
    ensures forall us :: !ParsesAs(b, us, size)
  {
    hide Encode, ParsesAs;
    forall us | ParsesAs(b, us, size)
      ensures false
    {
      ParseGoesOn(b, ts, us, size);
    }
  }

  lemma AppendOne(ts: seq<Tuple>, t: Tuple)
    requires WellFormed(ts) && t.WellFormed()
    ensures WellFormed(ts + [t]) && Encode(ts + [t]) == Encode(ts) + EncodeTuple(t)
  {
    EncodeAppend(ts, [t]);
    assert [t][1..] == [];
  }

  lemma EmptyEncoding()
    ensures Encode([]) == []
  {}

  lemma Parsed(b: Blob, ts: seq<Tuple>, size: nat)
    requires size <= |b| && WellFormed(ts) && |Encode(ts)| < size && b[..|Encode(ts)|] == Encode(ts)
    requires b[|Encode(ts)|] == 0 && forall m :: |Encode(ts)| < m < size ==> b[m] == 0xff
    ensures ParsesAs(b, ts, size)
  {
    ImageFrom(b, ts, size);
  }

  lemma {:induction false} WithoutWellFormed(ts: seq<Tuple>, key: Blob)
    requires WellFormed(ts)
    ensures WellFormed(Without(ts, key))
  {}

  lemma AddedOnce(ts: seq<Tuple>, t: Tuple)
    requires NoDuplicates(ts) && Find(ts, t.key) == |ts|
    ensures NoDuplicates(ts + [t])
  {}

  lemma StoredNumbers(b: Blob, o: nat, t: Tuple)
    requires StoredAt(b, o, t)
    ensures t.WellFormed() && b[o] as int == |t.key| && b[o + 1] as int == |t.val|
  {}

  lemma StartsPrefix(b: Blob, ts: seq<Tuple>, size: nat)
    requires Starts(b, ts, size)
    ensures |Encode(ts)| < size && b[..|Encode(ts)|] == Encode(ts) && Offset(ts, |ts|) == |Encode(ts)|
  {
    EndOffset(ts);
  }

  lemma PrefixAt(b: Blob, ts: seq<Tuple>, size: nat, k: nat)
    requires Starts(b, ts, size) && k < |ts|
    ensures Offset(ts, k) < size && b[..Offset(ts, k)] == Encode(ts[..k])
  {
    hide EncodeTuple;
    EncodeSplit(ts, k);
    var e := Encode(ts);
    var o := Offset(ts, k);
    assert b[..o] == b[..|e|][..o] == e[..o];
  }

  lemma NotFound(b: Blob, ts: seq<Tuple>, size: nat, key: Blob)
    requires Starts(b, ts, size) && Find(ts, key) == |ts|
    ensures Without(ts, key) == ts && |Encode(ts)| < size && b[..|Encode(ts)|] == Encode(ts)
    ensures Offset(ts, |ts|) == |Encode(ts)|
  {
    EndOffset(ts);
  }

  lemma EndOfTuples(b: Blob, ts: seq<Tuple>, size: nat)
    requires Starts(b, ts, size)
    ensures WellFormed(ts) && Offset(ts, |ts|) == |Encode(ts)| < size && b[|Encode(ts)|] == 0
  {
    EndOffset(ts);
  }
}
