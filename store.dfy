/** The in-memory object store the IPAM models are saved into: the VRFs with
    their `enforce_unique` flags, the Prefix table and the IPAddress table.
    `objects.create` appends without running `clean`; the admission methods
    run `clean` first and create only what it admits. */
module Ipam {
  import opened Addressing
  import opened Uniqueness
  import opened Containment

  /** The two settings the core reads at call time. */
  datatype Settings = Settings(enforceGlobalUnique: bool, autoPrefixCreate: bool)

  class Store {
    var vrfs: VrfTable
    var nextVrfId: nat
    var prefixes: seq<Record>
    var addresses: seq<Record>

    /** Every stored record refers to an existing VRF, VRF ids below
        `nextVrfId` are the only ones taken, and every Prefix names its block
        by its base address. */
    ghost predicate Valid()
      reads this
    {
      (forall id :: id in vrfs ==> id < nextVrfId) &&
      (forall i :: 0 <= i < |prefixes| ==> KnownScope(vrfs, prefixes[i].vrf)) &&
      (forall i :: 0 <= i < |prefixes| ==> IsBaseAddress(prefixes[i].net)) &&
      (forall i :: 0 <= i < |addresses| ==> KnownScope(vrfs, addresses[i].vrf))
    }

    constructor ()
      ensures Valid()
      ensures vrfs == map[] && prefixes == [] && addresses == []
    {
      vrfs, nextVrfId := map[], 0;
      prefixes, addresses := [], [];
    }

    /** `VRF.objects.create(enforce_unique=...)`: a new VRF with a fresh id. */
    method CreateVrf(enforceUnique: bool) returns (id: nat)
      requires Valid()
      modifies this
      ensures Valid()
      ensures id !in old(vrfs) && vrfs == old(vrfs)[id := enforceUnique]
      ensures prefixes == old(prefixes) && addresses == old(addresses)
    {
      id := nextVrfId;
      vrfs := vrfs[id := enforceUnique];
      nextVrfId := nextVrfId + 1;
    }

    /** `Prefix.objects.create(...)`: stores the Prefix; `clean` is not run. */
    method CreatePrefix(p: Record)
      requires Valid() && KnownScope(vrfs, p.vrf) && IsBaseAddress(p.net)
      modifies this
      ensures Valid()
      ensures prefixes == old(prefixes) + [p]
      ensures vrfs == old(vrfs) && addresses == old(addresses)
    {
      prefixes := prefixes + [p];
    }

    /** `IPAddress.objects.create(...)`: stores the address and, with
        AUTO_PREFIX_CREATE on, adds its parent Prefix when that partition
        has none with an equal network. */
    method CreateIPAddress(a: Record, autoPrefixCreate: bool)
      requires Valid() && KnownScope(vrfs, a.vrf)
      modifies this
      ensures Valid()
      ensures addresses == old(addresses) + [a]
      ensures prefixes == Repair(old(prefixes), a, autoPrefixCreate)
      ensures vrfs == old(vrfs)
    {
      addresses := addresses + [a];
      if autoPrefixCreate {
        var parent := ParentOf(a);
        if FindDuplicate(prefixes, parent).None? {
          prefixes := prefixes + [parent];
        }
      }
    }

    /** Admission of a Prefix: `clean`, then create when it passed. A store
        whose Prefix table was unique under the policy stays unique. */
    method AdmitPrefix(p: Record, settings: Settings) returns (r: Outcome)
      requires Valid() && IsBaseAddress(p.net)
      modifies this
      ensures Valid()
      ensures r == Clean(old(prefixes), old(vrfs), settings.enforceGlobalUnique, p)
      ensures prefixes == if r.Admitted? then old(prefixes) + [p] else old(prefixes)
      ensures vrfs == old(vrfs) && addresses == old(addresses)
      ensures UniqueUnder(old(prefixes), vrfs, settings.enforceGlobalUnique) ==>
        UniqueUnder(prefixes, vrfs, settings.enforceGlobalUnique)
    {
      r := Clean(prefixes, vrfs, settings.enforceGlobalUnique, p);
      if r.Admitted? {
        if UniqueUnder(prefixes, vrfs, settings.enforceGlobalUnique) {
          AdmissionPreservesUniqueness(prefixes, vrfs, settings.enforceGlobalUnique, p);
        }
        CreatePrefix(p);
      }
    }

    /** Admission of an IPAddress: `clean`, then create (with the parent
        Prefix rule) when it passed. Both tables keep their uniqueness. */
    method AdmitIPAddress(a: Record, settings: Settings) returns (r: Outcome)
      requires Valid()
      modifies this
      ensures Valid()
      ensures r == Clean(old(addresses), old(vrfs), settings.enforceGlobalUnique, a)
      ensures addresses == if r.Admitted? then old(addresses) + [a] else old(addresses)
      ensures prefixes == if r.Admitted? then Repair(old(prefixes), a, settings.autoPrefixCreate) else old(prefixes)
      ensures vrfs == old(vrfs)
      ensures UniqueUnder(old(addresses), vrfs, settings.enforceGlobalUnique) ==>
        UniqueUnder(addresses, vrfs, settings.enforceGlobalUnique)
      ensures UniqueUnder(old(prefixes), vrfs, settings.enforceGlobalUnique) ==>
        UniqueUnder(prefixes, vrfs, settings.enforceGlobalUnique)
    {
      r := Clean(addresses, vrfs, settings.enforceGlobalUnique, a);
      if r.Admitted? {
        if UniqueUnder(addresses, vrfs, settings.enforceGlobalUnique) {
          AdmissionPreservesUniqueness(addresses, vrfs, settings.enforceGlobalUnique, a);
        }
        if UniqueUnder(prefixes, vrfs, settings.enforceGlobalUnique) {
          RepairPreservesUniqueness(prefixes, vrfs, settings.enforceGlobalUnique, a, settings.autoPrefixCreate);
        }
        CreateIPAddress(a, settings.autoPrefixCreate);
      }
    }
  }
}
