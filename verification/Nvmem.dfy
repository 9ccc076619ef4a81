/** The two-partition commit of fw/common/nvmem.c, with power lost at any flash operation. Hash and
    cipher are parameters: what is assumed of them is the predicate Sound. */
module Nvmem {
  import opened MachineInts

  type Bytes = seq<uint8>

  /** struct nvmem_tag without the hash. */
  datatype Tag = Tag(padding: Bytes, layout: uint8, generation: uint8, reserved: Bytes)

  /** struct nvmem_partition, in the cache or on flash; on flash the buffer is encrypted. */
  datatype Partition = Partition(sha: Bytes, tag: Tag, buffer: Bytes)

  /** The hash over a partition without its hash field, and the cipher, its own inverse for each salt. */
  datatype Crypto = Crypto(hash: (Tag, Bytes) -> Bytes, cipher: (Bytes, Bytes) -> Bytes, erased: Partition)
  {
    predicate Verifies(p: Partition) {
      hash(p.tag, cipher(p.sha, p.buffer)) == p.sha
    }

    function Decrypted(p: Partition): Bytes { cipher(p.sha, p.buffer) }

    /** Equal hashes mean equal contents, ciphering twice is the identity, and erased bytes carry no valid hash. */
    ghost predicate Sound() {
      && (forall t, t', b, b' :: hash(t, b) == hash(t', b') ==> t == t' && b == b')
      && (forall s, b :: cipher(s, cipher(s, b)) == b)
      && !Verifies(erased) && hash(erased.tag, erased.buffer) != erased.sha
    }
  }

  function Next(g: uint8): uint8 { if g == 255 then 0 else g + 1 }

  /** nvmem_compare_generation: which of two generation numbers is newer, around the wrap. */
  function Newest(g0: uint8, g1: uint8): nat {
    var delta := (g0 as int - g1 as int + 256) % 256;
    if delta < 128 then 0 else 1
  }

  lemma NewestOfNeighbours(g: uint8)
    ensures Newest(Next(g), g) == 0
    ensures Newest(g, Next(g)) == 1
  {}

  /** What a boot makes of the two partitions: the newer one if it verifies, else the other one. */
  function Choice(c: Crypto, p0: Partition, p1: Partition): int {
    var first := Newest(p0.tag.generation, p1.tag.generation);
    var second := 1 - first;
    var p := [p0, p1];
    if c.Verifies(p[first]) then first else if c.Verifies(p[second]) then second else -1
  }

  /** Partition a verifies, and the other one is one generation older or does not verify. */
  predicate ActiveAt(c: Crypto, part: seq<Partition>, a: int) {
    && |part| == 2 && (a == 0 || a == 1)
    && c.Verifies(part[a])
    && (c.Verifies(part[1 - a]) ==> part[a].tag.generation == Next(part[1 - a].tag.generation))
  }

  /** A boot chooses the active partition, whatever is in the other one. */
  lemma ChoiceIsActive(c: Crypto, part: seq<Partition>, a: int)
    requires ActiveAt(c, part, a)
    ensures Choice(c, part[0], part[1]) == a
  {
    NewestOfNeighbours(part[1 - a].tag.generation);
  }

  /** What a boot reads from flash; None before the first commit. */
  datatype Contents = None | Some(buffer: Bytes)

  function Recovered(c: Crypto, part: seq<Partition>): Contents
    requires |part| == 2
  {
    var a := Choice(c, part[0], part[1]);
    if a == -1 then None else Some(c.Decrypted(part[a]))
  }

  /** Nothing verifies, or there is an active partition. */
  predicate Consistent(c: Crypto, part: seq<Partition>) {
    |part| == 2 && var a := Choice(c, part[0], part[1]); a == -1 || ActiveAt(c, part, a)
  }

  /** Before a save into the other partition: a is active, or nothing verifies. */
  predicate Settled(c: Crypto, part: seq<Partition>, a: int) {
    && |part| == 2 && (a == 0 || a == 1)
    && (ActiveAt(c, part, a) || (!c.Verifies(part[0]) && !c.Verifies(part[1])))
  }

  /** Erasing the other partition, even halfway, does not change what a boot recovers. */
  lemma EraseIsHarmless(c: Crypto, part: seq<Partition>, part': seq<Partition>, a: int)
    requires Settled(c, part, a) && |part'| == 2 && part'[a] == part[a]
    requires c.Verifies(part'[1 - a]) ==> part'[1 - a] == part[1 - a]
    ensures Settled(c, part', a) && Recovered(c, part') == Recovered(c, part)
  {
    if ActiveAt(c, part, a) {
      ChoiceIsActive(c, part, a);
      ChoiceIsActive(c, part', a);
    }
  }

  /** Once the next generation is whole in the other partition, a boot recovers it. */
  lemma WriteTakesOver(c: Crypto, part: seq<Partition>, a: int, p: Partition)
    requires Settled(c, part, a) && c.Verifies(p)
    requires c.Verifies(part[a]) ==> p.tag.generation == Next(part[a].tag.generation)
    ensures ActiveAt(c, part[1 - a := p], 1 - a)
    ensures Recovered(c, part[1 - a := p]) == Some(c.Decrypted(p))
  {
    ChoiceIsActive(c, part[1 - a := p], 1 - a);
  }

  lemma ActiveIsSettled(c: Crypto, part: seq<Partition>, a: int)
    ensures ActiveAt(c, part, a) ==> Settled(c, part, a) && c.Verifies(part[a])
    ensures Settled(c, part, a) ==> |part| == 2 && (a == 0 || a == 1)
    ensures Settled(c, part, a) && !ActiveAt(c, part, a) ==> !c.Verifies(part[a]) && Recovered(c, part) == None
  {}

  lemma SettledIsConsistent(c: Crypto, part: seq<Partition>, a: int)
    requires Settled(c, part, a)
    ensures Consistent(c, part)
    ensures ActiveAt(c, part, a) ==> Recovered(c, part) == Some(c.Decrypted(part[a]))
  {
    if ActiveAt(c, part, a) { ChoiceIsActive(c, part, a); }
  }

  /** What a save writes for a buffer. */
  lemma SealedVerifies(c: Crypto, p: Partition, b: Bytes)
    requires c.Sound() && p.sha == c.hash(p.tag, b) && p.buffer == c.cipher(p.sha, b)
    ensures c.Verifies(p) && c.Decrypted(p) == b
  {}

  lemma SameHash(c: Crypto, p: Partition, q: Partition)
    requires c.Sound() && c.Verifies(p) && q.sha == p.sha == c.hash(q.tag, q.buffer)
    ensures q.buffer == c.Decrypted(p)
  {}

  lemma ErasedUnsealed(c: Crypto)
    requires c.Sound()
    ensures !c.Verifies(c.erased) && c.hash(c.erased.tag, c.erased.buffer) != c.erased.sha
  {}

  class Nvmem {
    const crypto: Crypto
    /** The two flash partitions. */
    var part: seq<Partition>
    var cache: Partition
    /** nvmem_act_partition, -1 when not known. */
    var act: int
    /** Once power is gone, flash operations have no effect until the next boot. */
    var power: bool

    /** Between operations: the cache carries the tag and hash of the active partition. */
    ghost predicate Valid()
      reads this
    {
      && power && ActiveAt(crypto, part, act)
      && cache.sha == part[act].sha && cache.tag == part[act].tag
    }

    /** flash_physical_erase; cut short, it leaves the old partition or one that does not verify. */
    method Erase(d: nat)
      requires |part| == 2 && d < 2 && !crypto.Verifies(crypto.erased)
      modifies this`part, this`power
      ensures |part| == 2 && part[1 - d] == old(part)[1 - d] && (power ==> old(power))
      ensures crypto.Verifies(part[d]) ==> part[d] == old(part)[d]
    {
      if power {
        power := *;
        var torn: Partition := *;
        part := part[d := if power then crypto.erased else if crypto.Verifies(torn) then part[d] else torn];
      }
    }

    /** flash_physical_write; cut short, it leaves the new partition or one that does not verify. */
    method Write(d: nat, p: Partition)
      requires |part| == 2 && d < 2
      modifies this`part, this`power
      ensures |part| == 2 && part[1 - d] == old(part)[1 - d] && (power ==> old(power))
      ensures power ==> part[d] == p
      ensures old(power) && crypto.Verifies(part[d]) ==> part[d] == p
      ensures !old(power) ==> part == old(part)
    {
      if power {
        power := *;
        var torn: Partition := *;
        part := part[d := if power || crypto.Verifies(torn) then p else torn];
      }
    }

    /** nvmem_save. If power lasts, the buffer is on flash and the other partition is the active one;
        if not, a boot recovers what it would have recovered before, or the buffer. */
    method Save()
      requires crypto.Sound() && power
      requires Valid() || (Settled(crypto, part, act) && !ActiveAt(crypto, part, act) && cache == crypto.erased)
      modifies this`part, this`cache, this`act, this`power
      ensures power ==> Valid() && cache.buffer == old(cache.buffer)
      ensures power ==> Recovered(crypto, part) == Some(old(cache.buffer))
      ensures Consistent(crypto, part)
      ensures Recovered(crypto, part) == old(Recovered(crypto, part))
        || Recovered(crypto, part) == Some(old(cache.buffer))
      ensures old(cache.sha == crypto.hash(cache.tag, cache.buffer)) ==> unchanged(this)
      ensures power && !old(cache.sha == crypto.hash(cache.tag, cache.buffer)) ==>
        && act == (old(act) + 1) % 2 && part == old(part)[act := part[act]]
        && part[act].tag.generation == Next(old(cache.tag.generation))
    {
      hide Settled, Recovered, Consistent, Crypto.Sound, Crypto.Verifies;
      ErasedUnsealed(crypto);
      ActiveIsSettled(crypto, part, act);
      ghost var before, a, b := part, act, cache.buffer;
      if cache.sha == crypto.hash(cache.tag, cache.buffer) {
        SettledIsConsistent(crypto, part, act);
        SameHash(crypto, part[act], cache);
        return;
      }
      var dest := (act + 1) % 2;
      Erase(dest);
      EraseIsHarmless(crypto, before, part, a);
      cache := cache.(tag := cache.tag.(layout := 0, generation := Next(cache.tag.generation)));
      cache := cache.(sha := crypto.hash(cache.tag, cache.buffer));
      cache := cache.(buffer := crypto.cipher(cache.sha, cache.buffer));
      SealedVerifies(crypto, cache, b);
      ghost var erased := part;
      Write(dest, cache);
      if part[dest] == cache {
        assert part == erased[dest := cache];
        WriteTakesOver(crypto, erased, a, cache);
        ActiveIsSettled(crypto, part, dest);
        SettledIsConsistent(crypto, part, dest);
      } else {
        EraseIsHarmless(crypto, erased, part, a);
        SettledIsConsistent(crypto, part, a);
      }
      cache := cache.(buffer := crypto.cipher(cache.sha, cache.buffer));
      act := dest;
    }

    /** nvmem_reinitialize */
    method Reinitialize()
      requires crypto.Sound() && power && |part| == 2 && Recovered(crypto, part) == None
      modifies this`part, this`cache, this`act, this`power
      ensures power ==> Valid() && cache.buffer == crypto.erased.buffer
      ensures power ==> Recovered(crypto, part) == Some(crypto.erased.buffer)
      ensures Consistent(crypto, part)
      ensures Recovered(crypto, part) == None || Recovered(crypto, part) == Some(crypto.erased.buffer)
    {
      act := 0;
      cache := crypto.erased;
      Save();
    }

    /** nvmem_partition_read_verify */
    method ReadVerify(index: nat) returns (ok: bool)
      requires |part| == 2 && index < 2
      modifies this`cache
      ensures ok == crypto.Verifies(part[index])
      ensures cache == part[index].(buffer := crypto.Decrypted(part[index]))
    {
      cache := part[index];
      cache := cache.(buffer := crypto.cipher(cache.sha, cache.buffer));
      ok := crypto.hash(cache.tag, cache.buffer) == cache.sha;
    }

    /** nvmem_find_partition after a boot: the cache gets what is recovered from flash; if nothing is, both
        partitions start over. */
    method FindPartition()
      requires crypto.Sound() && Consistent(crypto, part)
      modifies this`part, this`cache, this`act, this`power
      ensures old(Recovered(crypto, part)).Some? ==>
        Valid() && part == old(part) && Some(cache.buffer) == old(Recovered(crypto, part))
      ensures Consistent(crypto, part)
      ensures old(Recovered(crypto, part)).None? ==>
        && (power ==> Valid() && cache.buffer == crypto.erased.buffer && Recovered(crypto, part) == Some(cache.buffer))
        && (Recovered(crypto, part) == None || Recovered(crypto, part) == Some(crypto.erased.buffer))
    {
      hide Crypto.Sound, Crypto.Verifies;
      power := true;
      act := -1;
      var newest := Newest(part[0].tag.generation, part[1].tag.generation);
      var n := 0;
      while n < 2
        invariant 0 <= n <= 2 && power && part == old(part)
        invariant n >= 1 ==> !crypto.Verifies(part[newest])
        invariant n >= 2 ==> !crypto.Verifies(part[1 - newest])
      {
        var check := (n + newest) % 2;
        var ok := ReadVerify(check);
        if ok {
          act := check;
          return;
        }
        n := n + 1;
      }
      Reinitialize();
    }

    /** n commits of any contents and boots: a boot follows whenever power was lost, and boots(i) says that one also
        comes between two operations. */
    method Run(n: nat, boots: nat -> bool) returns (events: seq<Event>, ghost states: seq<Contents>)
      requires crypto.Sound() && Consistent(crypto, part)
      modifies this`part, this`cache, this`act, this`power
      ensures IsRun(events, states) && Consistent(crypto, part)
      ensures |events| == n && states[0] == old(Recovered(crypto, part)) && states[n] == Recovered(crypto, part)
    {
      hide Crypto.Sound, Consistent, Recovered, ActiveAt;
      TwoPartitions(crypto, part);
      events, states := [], [Recovered(crypto, part)];
      var up := false;
      for i := 0 to n
        invariant crypto.Sound() && Consistent(crypto, part) && |part| == 2 && (up ==> Valid())
        invariant IsRun(events, states) && |events| == i
        invariant states[0] == old(Recovered(crypto, part)) && states[i] == Recovered(crypto, part)
      {
        var event: Event;
        if !up || boots(i) {
          FindPartition();
          event := if power then Booted(cache.buffer) else BootCutShort;
        } else {
          var b: Bytes := *;
          cache := cache.(buffer := b);
          Save();
          event := if power then Done(b) else CutShort(b);
        }
        up := power;
        events := events + [event];
        TwoPartitions(crypto, part);
        states := states + [Recovered(crypto, part)];
      }
    }
  }

  lemma TwoPartitions(c: Crypto, part: seq<Partition>)
    ensures Consistent(c, part) ==> |part| == 2
  {}

  // ---- Runs ----

  datatype Event = Done(buffer: Bytes) | CutShort(buffer: Bytes) | Booted(found: Bytes) | BootCutShort

  /** What an event does to what a boot would recover. */
  predicate Step(before: Contents, e: Event, after: Contents) {
    match e
    case Done(b) => after == Some(b)
    case CutShort(b) => after == before || after == Some(b)
    case Booted(b) => after == Some(b) && (before.Some? ==> after == before)
    case BootCutShort => before == None
  }

  predicate IsRun(events: seq<Event>, states: seq<Contents>) {
    && |states| == |events| + 1
    && forall i {:trigger events[i]} :: 0 <= i < |events| ==> Step(states[i], events[i], states[i + 1])
  }

  /** After any run, a boot recovers the last commit that completed, or a later one that was cut short. */
  lemma {:induction false} RecoversLastCommit(events: seq<Event>, states: seq<Contents>, j: nat, n: nat)
    returns (k: nat)
    requires IsRun(events, states) && j < n <= |events| && events[j].Done?
    ensures j <= k < n && (events[k].Done? || events[k].CutShort?) && states[n] == Some(events[k].buffer)
    ensures forall i :: k < i < n ==> !events[i].Done?
    decreases n
  {
    assert Step(states[n - 1], events[n - 1], states[n]);
    k := n - 1;
    if n - 1 > j && !events[n - 1].Done? {
      var m := RecoversLastCommit(events, states, j, n - 1);
      if states[n] == states[n - 1] { k := m; }
    }
  }

  // ---- The assumptions can be met ----

  /** A prefix code for byte strings. */
  function Code(b: Bytes): Bytes {
    if b == [] then [0] else [1, b[0]] + Code(b[1..])
  }

  lemma {:induction false} CodeInjective(a: Bytes, b: Bytes, r: Bytes, s: Bytes)
    requires Code(a) + r == Code(b) + s
    ensures a == b && r == s
    decreases |a|
  {
    var x, y := Code(a) + r, Code(b) + s;
    assert x[0] == (if a == [] then 0 else 1) && y[0] == (if b == [] then 0 else 1);
    if a == [] {
      assert x[1..] == r && y[1..] == s;
    } else {
      assert x[1] == a[0] && y[1] == b[0];
      assert x[2..] == Code(a[1..]) + r && y[2..] == Code(b[1..]) + s;
      CodeInjective(a[1..], b[1..], r, s);
    }
  }

  function Plain(t: Tag, b: Bytes): Bytes {
    Code(t.padding) + (Code(t.reserved) + (Code(b) + [t.layout, t.generation]))
  }

  lemma PlainInjective(t: Tag, b: Bytes, t': Tag, b': Bytes)
    requires Plain(t, b) == Plain(t', b')
    ensures t == t' && b == b'
  {
    var x, y := [t.layout, t.generation], [t'.layout, t'.generation];
    CodeInjective(t.padding, t'.padding, Code(t.reserved) + (Code(b) + x), Code(t'.reserved) + (Code(b') + y));
    CodeInjective(t.reserved, t'.reserved, Code(b) + x, Code(b') + y);
    CodeInjective(b, b', x, y);
    assert x[0] == y[0] && x[1] == y[1];
  }

  /** What is assumed of the hash and the cipher is consistent. */
  lemma SoundIsPossible() returns (c: Crypto)
    ensures c.Sound()
  {
    var blank := Partition([], Tag([], 0, 0, []), []);
    c := Crypto((t: Tag, b: Bytes) => Plain(t, b), (s: Bytes, b: Bytes) => b, blank);
    forall t, t', b, b' | c.hash(t, b) == c.hash(t', b')
      ensures t == t' && b == b'
    {
      PlainInjective(t, b, t', b');
    }
    assert |Plain(blank.tag, [])| > 0;
  }
}
