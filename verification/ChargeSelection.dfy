/** What fw/common/charge_manager.c promises of the port it selects. */
module ChargeSelection {
  const CHARGE_PORT_NONE := -1
  const CHARGE_SUPPLIER_NONE := -1
  const CHARGE_CEIL_NONE := -1
  const OVERRIDE_OFF := -1
  const OVERRIDE_DONT_CHARGE := -2
  const CHARGE_SUPPLIER_COUNT: nat := 8

  const CHARGE_SUPPLIER_PD := 0
  const CHARGE_SUPPLIER_TYPEC := 1
  const CHARGE_SUPPLIER_BC12_DCP := 2
  const CHARGE_SUPPLIER_BC12_CDP := 3
  const CHARGE_SUPPLIER_BC12_SDP := 4
  const CHARGE_SUPPLIER_PROPRIETARY := 5
  const CHARGE_SUPPLIER_OTHER := 6
  const CHARGE_SUPPLIER_VBUS := 7

  /** By supplier; the lowest number comes first. */
  const SUPPLIER_PRIORITY: seq<int> := [0, 1, 2, 3, 4, 1, 5, 6]

  predicate ComesBefore(i: nat, k: nat)
    requires i < CHARGE_SUPPLIER_COUNT && k < CHARGE_SUPPLIER_COUNT
  {
    SUPPLIER_PRIORITY[i] < SUPPLIER_PRIORITY[k]
  }

  /** The suppliers by name: each of the list comes before the next; type C and proprietary ones are equal. */
  lemma SuppliersInOrder(i: nat, k: nat)
    requires i < CHARGE_SUPPLIER_COUNT && k < CHARGE_SUPPLIER_COUNT
    ensures ComesBefore(CHARGE_SUPPLIER_PD, CHARGE_SUPPLIER_TYPEC)
    ensures ComesBefore(CHARGE_SUPPLIER_TYPEC, CHARGE_SUPPLIER_BC12_DCP)
    ensures ComesBefore(CHARGE_SUPPLIER_BC12_DCP, CHARGE_SUPPLIER_BC12_CDP)
    ensures ComesBefore(CHARGE_SUPPLIER_BC12_CDP, CHARGE_SUPPLIER_BC12_SDP)
    ensures ComesBefore(CHARGE_SUPPLIER_BC12_SDP, CHARGE_SUPPLIER_OTHER)
    ensures ComesBefore(CHARGE_SUPPLIER_OTHER, CHARGE_SUPPLIER_VBUS)
    ensures !ComesBefore(i, k) && !ComesBefore(k, i) <==>
      i == k || {i, k} == {CHARGE_SUPPLIER_TYPEC, CHARGE_SUPPLIER_PROPRIETARY}
  {
    assert i != k ==> i in {i, k} && k in {i, k};
  }

  datatype Capability = Unknown | DualRole | Dedicated

  datatype Offer = Offer(current: int, voltage: int)
  {
    function Power(): int { current * voltage }
  }

  /** What the selection looks at: offers[supplier][port], the capabilities of the ports, the override, and
      whether dual-role ports may charge. */
  datatype Table = Table(offers: seq<seq<Offer>>, dualrole: seq<Capability>, override: int, drpCharging: bool)
  {
    ghost predicate Shape() {
      && |offers| == CHARGE_SUPPLIER_COUNT
      && (forall i :: 0 <= i < |offers| ==> |offers[i]| == |dualrole|)
      && (override == OVERRIDE_OFF || override == OVERRIDE_DONT_CHARGE || 0 <= override < |dualrole|)
    }

    predicate Offered(i: nat, j: nat)
      requires i < |offers| && j < |offers[i]|
    {
      offers[i][j].current != 0 && offers[i][j].voltage != 0
    }

    /** Supplier i of port j offers charge, and the port may be used. */
    ghost predicate Candidate(i: int, j: int)
      requires Shape()
    {
      && 0 <= i < CHARGE_SUPPLIER_COUNT && 0 <= j < |dualrole| && Offered(i, j)
      && (drpCharging || dualrole[j] == Dedicated || override == j)
    }

    /** Supplier i of port j beats supplier k of port m: it comes before, or the two are equal and it offers more
        power. */
    predicate Beats(i: nat, j: nat, k: nat, m: nat)
      requires i < |offers| <= CHARGE_SUPPLIER_COUNT && j < |offers[i]| && k < |offers| && m < |offers[k]|
    {
      || ComesBefore(i, k)
      || (!ComesBefore(k, i)
          && offers[i][j].current * offers[i][j].voltage > offers[k][m].current * offers[k][m].voltage)
    }

    /** Some supplier of the override port offers charge. */
    ghost predicate OverrideOffers()
      requires Shape()
    {
      override >= 0 && exists i :: Candidate(i, override)
    }

    /** The promise: no charge on request; the best supplier of the override port if it offers charge;
        otherwise a supplier and port that no candidate beats, on the active port if it has one such. */
    ghost predicate Best(active: int, supplier: int, port: int)
      requires Shape()
    {
      if override == OVERRIDE_DONT_CHARGE then
        supplier == CHARGE_SUPPLIER_NONE && port == CHARGE_PORT_NONE
      else if OverrideOffers() then
        port == override && Candidate(supplier, port) &&
        forall i :: Candidate(i, override) ==> !Beats(i, override, supplier, port)
      else if exists i, j :: Candidate(i, j) then
        && Candidate(supplier, port)
        && (forall i, j :: Candidate(i, j) ==> !Beats(i, j, supplier, port))
        && (forall i :: Candidate(i, active) && !Beats(supplier, port, i, active) ==> port == active)
      else
        supplier == CHARGE_SUPPLIER_NONE && port == CHARGE_PORT_NONE
    }

    /** The table with nothing to charge from on one port. */
    function Reject(port: nat): Table
      requires forall i :: 0 <= i < |offers| ==> port < |offers[i]|
    {
      this.(offers := seq(|offers|, i requires 0 <= i < |offers| =>
                        offers[i][port := offers[i][port].(current := 0)]))
    }

    ghost function ChargeablePorts(): set<int>
      requires Shape()
    {
      set i, j | 0 <= i < CHARGE_SUPPLIER_COUNT && 0 <= j < |dualrole| && Offered(i, j) :: j
    }

    lemma RejectRemovesPort(port: nat)
      requires Shape() && port < |dualrole| && port in ChargeablePorts()
      ensures Reject(port).Shape() && Reject(port).ChargeablePorts() == ChargeablePorts() - {port}
    {
      var t := Reject(port);
      assert forall i, j :: 0 <= i < CHARGE_SUPPLIER_COUNT && 0 <= j < |dualrole| ==>
        t.Offered(i, j) == (j != port && Offered(i, j));
    }
  }

  /** Supplier i offers current and voltage on port j, which is dedicated, or the override port, or may charge as a
      dual-role port. */
  predicate MayCharge(t: Table, i: int, j: int) {
    && 0 <= i < |t.offers| && 0 <= j < |t.offers[i]| && j < |t.dualrole|
    && t.offers[i][j].current != 0 && t.offers[i][j].voltage != 0
    && (t.drpCharging || t.dualrole[j] == Dedicated || t.override == j)
  }

  /** A port is selected exactly if charging is wanted and some supplier and port may charge; and then one such. */
  lemma SelectsWhenItCan(t: Table, active: int, supplier: int, port: int)
    requires t.Shape() && t.Best(active, supplier, port)
    ensures port != CHARGE_PORT_NONE <==> t.override != OVERRIDE_DONT_CHARGE && exists i, j :: MayCharge(t, i, j)
    ensures port != CHARGE_PORT_NONE ==> MayCharge(t, supplier, port)
  {
    if i, j :| MayCharge(t, i, j) { assert t.Candidate(i, j); }
    if port != CHARGE_PORT_NONE { assert MayCharge(t, supplier, port); }
  }

  /** A refresh after a refresh keeps the port, also when the first one cleared the override: an active port
      is left only for something better. */
  lemma PortIsStable(t: Table, active: int, supplier: int, port: int, supplier': int, port': int)
    requires t.Shape() && t.Best(active, supplier, port) && port != CHARGE_PORT_NONE
    requires var u := t.(override := if t.override >= 0 && t.override != port then OVERRIDE_OFF else t.override);
             u.Best(port, supplier', port')
    ensures port' == port
  {
    var u := t.(override := if t.override >= 0 && t.override != port then OVERRIDE_OFF else t.override);
    assert t.Candidate(supplier, port);
    assert u.Candidate(supplier, port);
    if !t.OverrideOffers() {
      assert t.Candidate(supplier', port');
    }
  }
}
