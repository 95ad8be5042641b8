/** The unit tests of the IPAM models, each as a method that builds a fresh
    store the way the test does and returns what the test observes; the
    postcondition is the test's assertion. */
module IpamScenarios {
  import opened Addressing
  import opened Uniqueness
  import opened Containment
  import opened Ipam

  /** 192.0.2.0/24 */
  const BLOCK: Cidr := Net(0xC000_0200, 24)
  /** 192.0.2.1/24 */
  const HOST_ONE: Cidr := Net(0xC000_0201, 24)
  /** 192.0.2.2/24 */
  const HOST_TWO: Cidr := Net(0xC000_0202, 24)

  /** A global duplicate Prefix passes `clean` when global uniqueness is off. */
  method PrefixDuplicateGlobal() returns (r: Outcome)
    ensures r == Admitted
  {
    var store := new Store();
    TestHostsShareParent();
    store.CreatePrefix(Record(BLOCK, Global));
    r := Clean(store.prefixes, store.vrfs, false, Record(BLOCK, Global));
  }

  /** A global duplicate Prefix is refused when global uniqueness is on. */
  method PrefixDuplicateGlobalUnique() returns (r: Outcome)
    ensures r.Rejected? && r.error.Duplicate?
  {
    var store := new Store();
    TestHostsShareParent();
    store.CreatePrefix(Record(BLOCK, Global));
    r := Clean(store.prefixes, store.vrfs, true, Record(BLOCK, Global));
  }

  /** A duplicate Prefix in a VRF without `enforce_unique` passes, whatever
      the global setting. */
  method PrefixDuplicateVrf(enforceGlobalUnique: bool) returns (r: Outcome)
    ensures r == Admitted
  {
    var store := new Store();
    var vrf := store.CreateVrf(false);
    TestHostsShareParent();
    store.CreatePrefix(Record(BLOCK, InVrf(vrf)));
    r := Clean(store.prefixes, store.vrfs, enforceGlobalUnique, Record(BLOCK, InVrf(vrf)));
  }

  /** A duplicate Prefix in a VRF with `enforce_unique` is refused, whatever
      the global setting. */
  method PrefixDuplicateVrfUnique(enforceGlobalUnique: bool) returns (r: Outcome)
    ensures r.Rejected? && r.error.Duplicate?
  {
    var store := new Store();
    var vrf := store.CreateVrf(true);
    TestHostsShareParent();
    store.CreatePrefix(Record(BLOCK, InVrf(vrf)));
    r := Clean(store.prefixes, store.vrfs, enforceGlobalUnique, Record(BLOCK, InVrf(vrf)));
  }

  /** A global duplicate address passes when global uniqueness is off. */
  method AddressDuplicateGlobal(autoPrefixCreate: bool) returns (r: Outcome)
    ensures r == Admitted
  {
    var store := new Store();
    store.CreateIPAddress(Record(HOST_ONE, Global), autoPrefixCreate);
    r := Clean(store.addresses, store.vrfs, false, Record(HOST_ONE, Global));
  }

  /** A global duplicate address is refused when global uniqueness is on. */
  method AddressDuplicateGlobalUnique(autoPrefixCreate: bool) returns (r: Outcome)
    ensures r.Rejected? && r.error.Duplicate?
  {
    var store := new Store();
    store.CreateIPAddress(Record(HOST_ONE, Global), autoPrefixCreate);
    r := Clean(store.addresses, store.vrfs, true, Record(HOST_ONE, Global));
  }

  /** A duplicate address in a VRF without `enforce_unique` passes. */
  method AddressDuplicateVrf(enforceGlobalUnique: bool, autoPrefixCreate: bool) returns (r: Outcome)
    ensures r == Admitted
  {
    var store := new Store();
    var vrf := store.CreateVrf(false);
    store.CreateIPAddress(Record(HOST_ONE, InVrf(vrf)), autoPrefixCreate);
    r := Clean(store.addresses, store.vrfs, enforceGlobalUnique, Record(HOST_ONE, InVrf(vrf)));
  }

  /** A duplicate address in a VRF with `enforce_unique` is refused. */
  method AddressDuplicateVrfUnique(enforceGlobalUnique: bool, autoPrefixCreate: bool) returns (r: Outcome)
    ensures r.Rejected? && r.error.Duplicate?
  {
    var store := new Store();
    var vrf := store.CreateVrf(true);
    store.CreateIPAddress(Record(HOST_ONE, InVrf(vrf)), autoPrefixCreate);
    r := Clean(store.addresses, store.vrfs, enforceGlobalUnique, Record(HOST_ONE, InVrf(vrf)));
  }

  /** With AUTO_PREFIX_CREATE off, saving 192.0.2.1/24 leaves no Prefix
      192.0.2.0/24. */
  method PrefixAutoCreateDisabled() returns (count: nat)
    ensures count == 0
  {
    var store := new Store();
    store.CreateIPAddress(Record(HOST_ONE, Global), false);
    count := CountNetwork(store.prefixes, BLOCK);
  }

  /** 192.0.2.0/24 is a base address, and both test hosts mask to it:
      192.0.2.1/24 and 192.0.2.2/24 have the parent Prefix 192.0.2.0/24. */
  lemma TestHostsShareParent()
    ensures IsBaseAddress(BLOCK)
    ensures ParentOf(Record(HOST_ONE, Global)) == Record(BLOCK, Global)
    ensures ParentOf(Record(HOST_TWO, Global)) == Record(BLOCK, Global)
  {
    assert BlockSize(24) == 256 by { assert Pow2(8) == 256; }
  }

  /** With AUTO_PREFIX_CREATE on, saving 192.0.2.1/24 yields one Prefix
      192.0.2.0/24, and saving 192.0.2.2/24 after it still leaves one. */
  method PrefixAutoCreateEnabled() returns (first: nat, second: nat)
    ensures first == 1 && second == 1
  {
    var store := new Store();
    var one, two := Record(HOST_ONE, Global), Record(HOST_TWO, Global);
    TestHostsShareParent();
    store.CreateIPAddress(one, true);
    first := CountNetwork(store.prefixes, BLOCK);
    assert Collides(store.prefixes[0], ParentOf(two));
    RepairCountsNetwork(store.prefixes, two);
    store.CreateIPAddress(two, true);
    second := CountNetwork(store.prefixes, BLOCK);
  }
}
