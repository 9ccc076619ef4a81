/** Port selection and refresh of fw/common/charge_manager.c. */
module ChargeManager {
  import opened ChargeSelection

  /** A refresh ends with a port or with none; or, when the board refuses not to charge: quietly if no port
      was ever set, and otherwise with a failed assertion. */
  datatype Outcome = Refreshed | NothingYet | AssertFails

  /** The smallest ceiling that is set, or CHARGE_CEIL_NONE. */
  predicate IsCeiling(ceilings: seq<int>, ceil: int) {
    && (forall r :: 0 <= r < |ceilings| && ceilings[r] != CHARGE_CEIL_NONE ==>
      ceil != CHARGE_CEIL_NONE && ceil <= ceilings[r])
    && (ceil != CHARGE_CEIL_NONE ==> ceil in ceilings)
  }

  /** The current to draw: the smallest of the offer and the ceilings that are set. */
  predicate IsLimited(offer: int, ceilings: seq<int>, current: int) {
    && current <= offer
    && (forall r :: 0 <= r < |ceilings| && ceilings[r] != CHARGE_CEIL_NONE ==> current <= ceilings[r])
    && (current == offer || (current != CHARGE_CEIL_NONE && current in ceilings))
  }

  lemma CurrentIsDetermined(offer: int, ceilings: seq<int>, current: int, current': int)
    requires IsLimited(offer, ceilings, current) && IsLimited(offer, ceilings, current')
    ensures current == current'
  {}

  class ChargeManager {
    const drpCharging: bool
    var available: seq<seq<Offer>>
    var chargeCeil: seq<seq<int>>
    var dualrole: seq<Capability>
    var chargePort: int
    var chargeSupplier: int
    var chargeCurrent: int
    var chargeCurrentUncapped: int
    var chargeVoltage: int
    var overridePort: int
    var initialized: bool

    /** What the selection looks at. */
    function Options(): Table
      reads this
    {
      Table.Table(available, dualrole, overridePort, drpCharging)
    }

    ghost predicate Valid()
      reads this
    {
      Options().Shape() && |chargeCeil| == |dualrole|
    }

    /** charge_manager_get_ceil */
    method GetCeil(port: nat) returns (ceil: int)
      requires port < |chargeCeil|
      ensures IsCeiling(chargeCeil[port], ceil)
    {
      ceil := CHARGE_CEIL_NONE;
      for i := 0 to |chargeCeil[port]|
        invariant IsCeiling(chargeCeil[port][..i], ceil)
      {
        var val := chargeCeil[port][i];
        if val != CHARGE_CEIL_NONE && (ceil == CHARGE_CEIL_NONE || val < ceil) {
          ceil := val;
        }
        assert chargeCeil[port][..i + 1] == chargeCeil[port][..i] + [val];
      }
      assert chargeCeil[port][..|chargeCeil[port]|] == chargeCeil[port];
    }

    /** charge_manager_get_best_charge_port */
    method GetBestChargePort() returns (port: int, supplier: int)
      requires Valid()
      ensures Options().Best(chargePort, supplier, port)
    {
      supplier, port := CHARGE_SUPPLIER_NONE, CHARGE_PORT_NONE;
      var bestPortPower := -1;
      if overridePort != OVERRIDE_DONT_CHARGE {
        ghost var t := Options();
        for i := 0 to CHARGE_SUPPLIER_COUNT
          invariant Found(t, chargePort, i, 0, supplier, port, bestPortPower)
        {
          for j := 0 to |dualrole|
            invariant Found(t, chargePort, i, j, supplier, port, bestPortPower)
          {
            hide Found;
            FoundRange(t, chargePort, i, j, supplier, port, bestPortPower);
            if available[i][j].current == 0 || available[i][j].voltage == 0 {
              SkipCandidate(t, chargePort, i, j, supplier, port, bestPortPower);
              continue;
            }
            if overridePort != OVERRIDE_OFF && overridePort == port && overridePort != j {
              SkipCandidate(t, chargePort, i, j, supplier, port, bestPortPower);
              continue;
            }
            if !drpCharging && dualrole[j] != Dedicated && overridePort != j {
              SkipCandidate(t, chargePort, i, j, supplier, port, bestPortPower);
              continue;
            }
            var candidatePortPower := available[i][j].Power();
            if supplier == CHARGE_SUPPLIER_NONE
              || SUPPLIER_PRIORITY[i] < SUPPLIER_PRIORITY[supplier]
              || (j == overridePort && port != overridePort)
              || (SUPPLIER_PRIORITY[i] == SUPPLIER_PRIORITY[supplier]
                  && (candidatePortPower > bestPortPower
                      || (candidatePortPower == bestPortPower && chargePort == j)))
            {
              Pick(t, chargePort, i, j, supplier, port, bestPortPower);
              supplier, port, bestPortPower := i, j, candidatePortPower;
            } else {
              Pass(t, chargePort, i, j, supplier, port, bestPortPower);
            }
          }
          NextSupplier(t, chargePort, i, supplier, port, bestPortPower);
        }
        FoundIsBest(t, chargePort, supplier, port, bestPortPower);
      }
    }

    /** The loop of charge_manager_refresh that hunts for an acceptable port. accept(k, p) says whether the
        board takes port p in its k-th answer, and rejected are the ports it refused, in this order: each was
        the best one when the ones before it had nothing to offer. */
    method Hunt(accept: (nat, int) -> bool)
        returns (found: bool, port: int, supplier: int, ghost rejected: seq<int>)
      requires Valid()
      modifies `available
      ensures Valid() && available == Zero(old(available), rejected)
      ensures Refused(old(Options()), chargePort, rejected, accept)
      ensures Options().Best(chargePort, supplier, port)
      ensures found <==>
        (initialized && port == chargePort && supplier == chargeSupplier) || accept(|rejected|, port)
      ensures !found ==> port == CHARGE_PORT_NONE
    {
      hide Table.Best, Table.ChargeablePorts, Zero, Refused;
      ghost var first := Options();
      rejected := [];
      NothingRefused(first, chargePort, accept);
      var asked := 0;
      while true
        invariant Valid() && available == Zero(first.offers, rejected) && asked == |rejected|
        invariant Refused(first, chargePort, rejected, accept)
        decreases Options().ChargeablePorts()
      {
        port, supplier := GetBestChargePort();
        BestInRange(Options(), chargePort, supplier, port);
        if initialized && port == chargePort && supplier == chargeSupplier {
          return true, port, supplier, rejected;
        }
        if accept(asked, port) {
          return true, port, supplier, rejected;
        }
        if port == CHARGE_PORT_NONE {
          return false, port, supplier, rejected;
        }
        assert Options() == first.(offers := Zero(first.offers, rejected));
        OneMoreRefused(first, chargePort, rejected, accept, supplier, port);
        ZeroOneMore(first.offers, rejected, port);
        RejectPort(port);
        rejected := rejected + [port];
        asked := asked + 1;
      }
    }

    /** Zeroes the available charge of a port, supplier by supplier. */
    method RejectPort(port: nat)
      requires Valid() && port < |dualrole| && port in Options().ChargeablePorts()
      modifies `available
      ensures Valid() && available == Zero(old(available), [port])
      ensures Options().ChargeablePorts() == old(Options().ChargeablePorts()) - {port}
    {
      ghost var t := Options();
      for i := 0 to CHARGE_SUPPLIER_COUNT
        invariant |available| == CHARGE_SUPPLIER_COUNT
        invariant forall a :: 0 <= a < CHARGE_SUPPLIER_COUNT ==>
          available[a] == (if a < i then t.Reject(port) else t).offers[a]
      {
        available := available[i := available[i][port := available[i][port].(current := 0)]];
      }
      t.RejectRemovesPort(port);
      assert available == t.Reject(port).offers;
      RejectIsZero(t, port);
    }

    /** The limits that go with the port in use. */
    ghost predicate LimitsMatch()
      requires Valid()
      reads this
    {
      if chargeSupplier == CHARGE_SUPPLIER_NONE then
        chargeCurrent == 0 && chargeCurrentUncapped == 0 && chargeVoltage == 0
      else
        && 0 <= chargeSupplier < |available| && 0 <= chargePort < |chargeCeil|
        && Offer(chargeCurrentUncapped, chargeVoltage) == available[chargeSupplier][chargePort]
        && IsLimited(chargeCurrentUncapped, chargeCeil[chargePort], chargeCurrent)
    }

    /** What is left of charge_manager_refresh once a port is found. updatedNew and updatedOld are the ports
        whose power request is renewed, and limitSet says that the board is given new limits. */
    method Adopt(port: int, supplier: int) returns (limitSet: bool, updatedNew: int, updatedOld: int)
      requires Valid() && (port == CHARGE_PORT_NONE <==> supplier == CHARGE_SUPPLIER_NONE)
      requires port != CHARGE_PORT_NONE ==> 0 <= supplier < CHARGE_SUPPLIER_COUNT && 0 <= port < |dualrole|
      modifies `initialized, `overridePort, `chargePort, `chargeSupplier, `chargeCurrent, `chargeCurrentUncapped,
        `chargeVoltage
      ensures Valid() && initialized && chargePort == port && chargeSupplier == supplier && LimitsMatch()
      ensures overridePort ==
        if old(overridePort) >= 0 && old(overridePort) != port then OVERRIDE_OFF else old(overridePort)
      ensures limitSet <==>
        port != old(chargePort) || chargeCurrent != old(chargeCurrent) || supplier != old(chargeSupplier)
      ensures updatedNew == if port != old(chargePort) || chargeCurrentUncapped != old(chargeCurrentUncapped)
                               || chargeVoltage != old(chargeVoltage) then port else CHARGE_PORT_NONE
      ensures updatedOld == if port != old(chargePort) then old(chargePort) else CHARGE_PORT_NONE
    {
      hide IsLimited, IsCeiling;
      updatedNew, updatedOld := CHARGE_PORT_NONE, CHARGE_PORT_NONE;
      initialized := true;
      if overridePort >= 0 && overridePort != port {
        overridePort := OVERRIDE_OFF;
      }
      var newCurrent, newUncapped, newVoltage := 0, 0, 0;
      if supplier != CHARGE_SUPPLIER_NONE {
        newCurrent, newUncapped, newVoltage := GetOffer(port, supplier);
      }
      limitSet := port != chargePort || newCurrent != chargeCurrent || supplier != chargeSupplier;
      if port != CHARGE_PORT_NONE
        && (port != chargePort || newUncapped != chargeCurrentUncapped || newVoltage != chargeVoltage)
      {
        updatedNew := port;
      }
      if chargePort != port && chargePort != CHARGE_PORT_NONE {
        updatedOld := chargePort;
      }
      chargeCurrent, chargeCurrentUncapped, chargeVoltage := newCurrent, newUncapped, newVoltage;
      chargeSupplier, chargePort := supplier, port;
    }

    /** What the supplier offers on the port, and the current as the ceilings limit it. */
    method GetOffer(port: int, supplier: int) returns (current: int, uncapped: int, voltage: int)
      requires Valid() && 0 <= supplier < CHARGE_SUPPLIER_COUNT && 0 <= port < |dualrole|
      ensures uncapped == available[supplier][port].current && voltage == available[supplier][port].voltage
      ensures IsLimited(uncapped, chargeCeil[port], current)
    {
      hide IsLimited, IsCeiling;
      uncapped, voltage := available[supplier][port].current, available[supplier][port].voltage;
      var ceil := GetCeil(port);
      current := if ceil != CHARGE_CEIL_NONE && ceil < uncapped then ceil else uncapped;
      LimitIs(uncapped, chargeCeil[port], ceil);
    }

    /** charge_manager_refresh: takes the best port that the board accepts, with the offers of the ports that
        it refused set to zero, and limits the current. */
    method Refresh(accept: (nat, int) -> bool)
        returns (outcome: Outcome, limitSet: bool, updatedNew: int, updatedOld: int, ghost rejected: seq<int>)
      requires Valid()
      modifies this
      ensures Valid() && dualrole == old(dualrole) && chargeCeil == old(chargeCeil)
      ensures available == Zero(old(available), rejected)
      ensures Refused(old(Options()), old(chargePort), rejected, accept)
      ensures outcome.Refreshed? ==>
        && Options().(override := old(overridePort)).Shape()
        && Options().(override := old(overridePort)).Best(old(chargePort), chargeSupplier, chargePort)
        && (|| (old(initialized) && chargePort == old(chargePort) && chargeSupplier == old(chargeSupplier))
            || accept(|rejected|, chargePort))
      ensures outcome.Refreshed? ==>
        && initialized && LimitsMatch()
        && overridePort ==
             if old(overridePort) >= 0 && old(overridePort) != chargePort then OVERRIDE_OFF else old(overridePort)
      ensures outcome.Refreshed? ==>
        && (limitSet <==> chargePort != old(chargePort) || chargeCurrent != old(chargeCurrent)
                          || chargeSupplier != old(chargeSupplier))
        && updatedNew == (if chargePort != old(chargePort) || chargeCurrentUncapped != old(chargeCurrentUncapped)
                             || chargeVoltage != old(chargeVoltage) then chargePort else CHARGE_PORT_NONE)
        && updatedOld == if chargePort != old(chargePort) then old(chargePort) else CHARGE_PORT_NONE
      ensures !outcome.Refreshed? ==>
        && (outcome.AssertFails? <==> old(initialized)) && !accept(|rejected|, CHARGE_PORT_NONE)
        && Options().Best(chargePort, CHARGE_SUPPLIER_NONE, CHARGE_PORT_NONE)
        && unchanged(`overridePort, `chargePort, `chargeSupplier, `initialized)
        && unchanged(`chargeCurrent, `chargeCurrentUncapped, `chargeVoltage)
    {
      hide Zero, Refused, LimitsMatch, Table.Best;
      limitSet, updatedNew, updatedOld := false, CHARGE_PORT_NONE, CHARGE_PORT_NONE;
      var found, port, supplier;
      found, port, supplier, rejected := Hunt(accept);
      BestInRange(Options(), chargePort, supplier, port);
      if !found {
        outcome := if initialized then AssertFails else NothingYet;
        return;
      }
      limitSet, updatedNew, updatedOld := Adopt(port, supplier);
      outcome := Refreshed;
    }
  }

  lemma LimitIs(offer: int, ceilings: seq<int>, ceil: int)
    requires IsCeiling(ceilings, ceil)
    ensures IsLimited(offer, ceilings, if ceil != CHARGE_CEIL_NONE && ceil < offer then ceil else offer)
  {}

  // ---- Refresh ----

  /** The offers with the current of the rejected ports set to zero. */
  function Zero(offers: seq<seq<Offer>>, rejected: seq<int>): (r: seq<seq<Offer>>)
    ensures |r| == |offers| && forall i :: 0 <= i < |r| ==> |r[i]| == |offers[i]|
  {
    seq(|offers|, i requires 0 <= i < |offers| => ZeroRow(offers[i], rejected))
  }

  function ZeroRow(offers: seq<Offer>, rejected: seq<int>): (r: seq<Offer>)
    ensures |r| == |offers|
  {
    seq(|offers|, j requires 0 <= j < |offers| => if j in rejected then offers[j].(current := 0) else offers[j])
  }

  /** The board refused these ports in its first answers, each when it was the best of what was left. */
  ghost predicate Refused(t: Table, active: int, rejected: seq<int>, accept: (nat, int) -> bool)
    requires t.Shape()
  {
    forall k :: 0 <= k < |rejected| ==> RefusedAt(t, active, rejected, accept, k)
  }

  ghost predicate RefusedAt(t: Table, active: int, rejected: seq<int>, accept: (nat, int) -> bool, k: nat)
    requires t.Shape() && k < |rejected|
  {
    && rejected[k] >= 0 && !accept(k, rejected[k])
    && exists supplier :: t.(offers := Zero(t.offers, rejected[..k])).Best(active, supplier, rejected[k])
  }

  lemma NothingRefused(t: Table, active: int, accept: (nat, int) -> bool)
    requires t.Shape()
    ensures Zero(t.offers, []) == t.offers && Refused(t, active, [], accept)
  {
    forall i | 0 <= i < |t.offers|
      ensures ZeroRow(t.offers[i], []) == t.offers[i]
    {}
  }

  lemma ZeroOneMore(offers: seq<seq<Offer>>, rejected: seq<int>, port: int)
    ensures Zero(Zero(offers, rejected), [port]) == Zero(offers, rejected + [port])
  {
    forall i | 0 <= i < |offers|
      ensures ZeroRow(ZeroRow(offers[i], rejected), [port]) == ZeroRow(offers[i], rejected + [port])
    {}
  }

  lemma OneMoreRefused(t: Table, active: int, rejected: seq<int>, accept: (nat, int) -> bool, supplier: int, port: int)
    requires t.Shape() && Refused(t, active, rejected, accept) && port >= 0 && !accept(|rejected|, port)
    requires t.(offers := Zero(t.offers, rejected)).Best(active, supplier, port)
    ensures Refused(t, active, rejected + [port], accept)
  {
    var more := rejected + [port];
    forall k | 0 <= k < |more|
      ensures RefusedAt(t, active, more, accept, k)
    {
      if k < |rejected| {
        assert RefusedAt(t, active, rejected, accept, k);
        assert more[..k] == rejected[..k];
      } else {
        assert more[..k] == rejected;
      }
    }
  }

  lemma RejectIsZero(t: Table, port: nat)
    requires t.Shape() && port < |t.dualrole|
    ensures t.Reject(port).offers == Zero(t.offers, [port])
  {
    forall i | 0 <= i < |t.offers|
      ensures t.Reject(port).offers[i] == ZeroRow(t.offers[i], [port])
    {}
  }

  /** No port is refused twice in a refresh, so the board is asked at most once more than there are ports. */
  lemma RefusedOnce(t: Table, active: int, rejected: seq<int>, accept: (nat, int) -> bool)
    requires t.Shape() && Refused(t, active, rejected, accept)
    ensures forall k :: 0 <= k < |rejected| ==> 0 <= rejected[k] < |t.dualrole|
    ensures forall j, k :: 0 <= j < k < |rejected| ==> rejected[j] != rejected[k]
    ensures |rejected| <= |t.dualrole|
  {
    forall k | 0 <= k < |rejected|
      ensures 0 <= rejected[k] < |t.dualrole| && rejected[k] !in rejected[..k]
    {
      assert RefusedAt(t, active, rejected, accept, k);
      var u := t.(offers := Zero(t.offers, rejected[..k]));
      var supplier :| u.Best(active, supplier, rejected[k]);
      assert u.Candidate(supplier, rejected[k]);
    }
    forall j, k | 0 <= j < k < |rejected|
      ensures rejected[j] != rejected[k]
    {
      assert rejected[k] !in rejected[..k];
      assert rejected[..k][j] == rejected[j];
    }
    DistinctBelow(rejected, |t.dualrole|);
  }

  lemma {:induction false} DistinctBelow(s: seq<int>, n: nat)
    requires forall k :: 0 <= k < |s| ==> 0 <= s[k] < n
    requires forall j, k :: 0 <= j < k < |s| ==> s[j] != s[k]
    ensures |s| <= n
    decreases n
  {
    if s != [] {
      assert 0 <= s[0] < n;
      if k :| 0 <= k < |s| && s[k] == n - 1 {
        DistinctBelow(s[..k] + s[k + 1..], n - 1);
      } else {
        DistinctBelow(s, n - 1);
      }
    }
  }

  lemma BestInRange(t: Table, active: int, supplier: int, port: int)
    requires t.Shape() && t.Best(active, supplier, port)
    ensures port == CHARGE_PORT_NONE <==> supplier == CHARGE_SUPPLIER_NONE
    ensures port != CHARGE_PORT_NONE ==>
      0 <= supplier < CHARGE_SUPPLIER_COUNT && 0 <= port < |t.dualrole| && port in t.ChargeablePorts()
  {}

  // ---- The loop of the selection ----

  predicate Seen(a: int, b: int, i: nat, j: nat) {
    0 <= a && 0 <= b && (a < i || (a == i && b < j))
  }

  /** What the loop has found among the suppliers before i, and the ports before j of supplier i. */
  ghost predicate Found(t: Table, active: int, i: nat, j: nat, supplier: int, port: int, power: int)
    requires t.Shape()
  {
    if port == CHARGE_PORT_NONE then
      supplier == CHARGE_SUPPLIER_NONE && forall a, b :: Seen(a, b, i, j) ==> !t.Candidate(a, b)
    else
      && t.Candidate(supplier, port) && Seen(supplier, port, i, j) && power == t.offers[supplier][port].Power()
      && if port == t.override then
           forall a :: Seen(a, port, i, j) && t.Candidate(a, port) ==> !t.Beats(a, port, supplier, port)
         else
           && (forall a :: Seen(a, t.override, i, j) ==> !t.Candidate(a, t.override))
           && (forall a, b :: Seen(a, b, i, j) && t.Candidate(a, b) ==> !t.Beats(a, b, supplier, port))
           && (forall a :: Seen(a, active, i, j) && t.Candidate(a, active) && !t.Beats(supplier, port, a, active)
                 ==> port == active)
  }

  lemma FoundRange(t: Table, active: int, i: nat, j: nat, supplier: int, port: int, power: int)
    requires t.Shape() && Found(t, active, i, j, supplier, port, power)
    ensures port == CHARGE_PORT_NONE <==> supplier == CHARGE_SUPPLIER_NONE
    ensures -1 <= supplier < CHARGE_SUPPLIER_COUNT
  {}

  predicate Preferred(t: Table, active: int, i: nat, j: nat, supplier: int, port: int, power: int)
    requires i < |t.offers| <= |SUPPLIER_PRIORITY| && j < |t.offers[i]| && -1 <= supplier < |SUPPLIER_PRIORITY|
  {
    || supplier == CHARGE_SUPPLIER_NONE
    || SUPPLIER_PRIORITY[i] < SUPPLIER_PRIORITY[supplier]
    || (j == t.override && port != t.override)
    || (SUPPLIER_PRIORITY[i] == SUPPLIER_PRIORITY[supplier]
        && (t.offers[i][j].Power() > power || (t.offers[i][j].Power() == power && active == j)))
  }

  lemma SkipCandidate(t: Table, active: int, i: nat, j: nat, supplier: int, port: int, power: int)
    requires t.Shape() && Found(t, active, i, j, supplier, port, power)
    requires !t.Candidate(i, j) || (port == t.override != OVERRIDE_OFF && t.override != j)
    ensures Found(t, active, i, j + 1, supplier, port, power)
  {
    assert forall a, b :: Seen(a, b, i, j + 1) ==> Seen(a, b, i, j) || (a == i && b == j);
  }

  lemma Pick(t: Table, active: int, i: nat, j: nat, supplier: int, port: int, power: int)
    requires t.Shape() && Found(t, active, i, j, supplier, port, power) && t.Candidate(i, j)
    requires t.override == OVERRIDE_OFF || port != t.override || j == t.override
    requires -1 <= supplier < CHARGE_SUPPLIER_COUNT && Preferred(t, active, i, j, supplier, port, power)
    ensures Found(t, active, i, j + 1, i, j, t.offers[i][j].Power())
  {
    assert forall a, b :: Seen(a, b, i, j + 1) ==> Seen(a, b, i, j) || (a == i && b == j);
  }

  lemma Pass(t: Table, active: int, i: nat, j: nat, supplier: int, port: int, power: int)
    requires t.Shape() && Found(t, active, i, j, supplier, port, power) && t.Candidate(i, j)
    requires t.override == OVERRIDE_OFF || port != t.override || j == t.override
    requires -1 <= supplier < CHARGE_SUPPLIER_COUNT && !Preferred(t, active, i, j, supplier, port, power)
    ensures Found(t, active, i, j + 1, supplier, port, power)
  {
    assert forall a, b :: Seen(a, b, i, j + 1) ==> Seen(a, b, i, j) || (a == i && b == j);
  }

  lemma NextSupplier(t: Table, active: int, i: nat, supplier: int, port: int, power: int)
    requires t.Shape() && Found(t, active, i, |t.dualrole|, supplier, port, power)
    ensures Found(t, active, i + 1, 0, supplier, port, power)
  {
    assert forall a, b :: Seen(a, b, i + 1, 0) && t.Candidate(a, b) ==> Seen(a, b, i, |t.dualrole|);
  }

  lemma FoundIsBest(t: Table, active: int, supplier: int, port: int, power: int)
    requires t.Shape() && Found(t, active, CHARGE_SUPPLIER_COUNT, 0, supplier, port, power)
    requires t.override != OVERRIDE_DONT_CHARGE
    ensures t.Best(active, supplier, port)
  {
    assert forall a, b :: t.Candidate(a, b) ==> Seen(a, b, CHARGE_SUPPLIER_COUNT, 0);
  }
}
