# IPAM uniqueness and automatic parent prefixes

This project models two things in NetBox's IP address management (`ipam`) models.

1. `clean`, the admission check for a Prefix and for an IPAddress. A candidate is refused as a duplicate only when all three of these hold:
   - its effective policy enforces uniqueness;
   - a stored record of the same kind has an exactly equal network value;
   - that record is in the same partition (the same VRF, or both global).

   Inside a VRF, the effective policy is that VRF's `enforce_unique` flag. For the global table it is the `ENFORCE_GLOBAL_UNIQUE` setting.
2. The IPAddress save path. Saving an address always stores it. When `AUTO_PREFIX_CREATE` is on, saving also works out the address's containing network, with the host bits cleared: `192.0.2.1/24` gives `192.0.2.0/24`. A Prefix with that network is created in the address's partition only if that partition has none yet.

The implementation in `ipam.models` is not part of this model. Only its unit tests are: `netbox/ipam/tests/test_models.py`. What the model does is what those tests fix, together with the rules above for `clean` and for the parent Prefix.

Layout, one module per component:

- `addressing.dfy`, module `Addressing`. IPv4 networks: `Cidr` is an address below 2^32 with a length of at most 32. `NetworkOf` is the masked containing block. `Contains` is containment, defined by block range and proved equal to the netmask test. `ClearHostBits` is a bit-by-bit reference for the mask.
- `uniqueness.dfy`, module `Uniqueness`. Scopes (`Global`, `InVrf(id)`), the effective policy and the duplicate query. `Clean` is a pure function over the stored records. `UniqueUnder` is the table invariant that admission keeps.
- `containment.dfy`, module `Containment`. `ParentOf` is the Prefix an address implies. `Repair` gives the Prefix table after an address is saved. The module also has the counts the tests check.
- `store.dfy`, module `Ipam`. The class `Store` holds the VRF table (id to `enforce_unique`), the Prefix table and the IPAddress table as fields. Its methods are `CreateVrf`, `CreatePrefix` and `CreateIPAddress`, which model `objects.create` and do not run `clean`. It also has `AdmitPrefix` and `AdmitIPAddress`, which run `clean` and then create. The settings `ENFORCE_GLOBAL_UNIQUE` and `AUTO_PREFIX_CREATE` are explicit parameters, not globals.
- `scenarios.dfy`, module `IpamScenarios`. Each unit test is a method. The method builds a fresh store the way the test does and returns what the test observes. Its postcondition is the test's assertion.

Choices where the tests leave things open:

- A candidate that names a VRF id the store does not hold is refused with `UnknownVrf`, a configuration error. In the source a VRF is an object reference, so this cannot happen there.
- The create methods require the VRF to exist. This is the referential integrity the object store guarantees.
- The parent Prefix is meant to be created through admission. The model appends it without calling `clean`. Lemma `RepairedParentPassesClean` proves that `clean` would admit it under every policy, so both give the same table.
- A Prefix is stored by its base address (no host bits set). The store's invariant says so, and `CreatePrefix` and `AdmitPrefix` require it of the Prefix they are given. Parent Prefixes made by `Repair` are base addresses by construction.

## Model

| member | source | states |
|---|---|---|
| `Addressing.NetworkOf` | netbox/ipam/tests/test_models.py:69-73 | the network of a host keeps its length, starts a block (address a multiple of 2^(32-len)) and that block holds the host address |
| `Addressing.NetworkOfUnique` | netbox/ipam/tests/test_models.py:69-73 | any block-aligned address whose block holds the host address is the network's address, so masking has exactly one answer |
| `Addressing.NetworkOfIdempotent` | netbox/ipam/tests/test_models.py:69-73 | masking a network again gives the same network |
| `Addressing.Contains` | netbox/ipam/tests/test_models.py:69-73 | containment by block range (outer no longer, outer a base address, inner's address inside outer's block) agrees with the netmask test: inner's address with the low 32-len(outer) bits cleared is outer's address |
| `Addressing.IsBaseAddressIff` | netbox/ipam/tests/test_models.py:66-73 | a network has no host bits set exactly when masking leaves it unchanged |
| `Addressing.NetworkOfIsContainingBlock` | netbox/ipam/tests/test_models.py:69-73 | the network contains its host, and it is the only network of the host's length that does |
| `Addressing.SameNetworkIff` | netbox/ipam/tests/test_models.py:74-75 | two hosts share a network exactly when they have one length and the second lies in the first one's block |
| `Addressing.NetworkOfClearsHostBits` | netbox/ipam/tests/test_models.py:69-73 | the arithmetic network equals the bit-level mask that clears the low 32-len bits |
| `Uniqueness.Enforced` | netbox/ipam/tests/test_models.py:12-34 | the effective policy: ENFORCE_GLOBAL_UNIQUE for the global table, the VRF's `enforce_unique` inside a VRF; a VRF that does not exist never enforces |
| `Uniqueness.FindDuplicate` | netbox/ipam/tests/test_models.py:18-22 | the duplicate query: a returned position holds a clashing record (equal network, same VRF); no result means no stored record clashes |
| `Uniqueness.Clean` | netbox/ipam/tests/test_models.py:12-61 | an unknown VRF is reported; otherwise the candidate is refused exactly when its effective policy enforces uniqueness and a stored record clashes, and the error names a clashing stored record |
| `Uniqueness.VrfPolicyIgnoresGlobalSetting` | netbox/ipam/tests/test_models.py:24-34 | inside a VRF the outcome is the same for either value of ENFORCE_GLOBAL_UNIQUE |
| `Uniqueness.OtherPartitionsNeverCollide` | netbox/ipam/tests/test_models.py:24-34 | records of other partitions (global against a VRF, or two VRFs) never make a candidate a duplicate, whatever the flags |
| `Uniqueness.SecondAdmissionRejectedIffEnforced` | netbox/ipam/tests/test_models.py:12-34 | after a record is stored, an equal candidate in its partition is refused, as a duplicate, exactly when that partition enforces uniqueness |
| `Uniqueness.AdmissionPreservesUniqueness` | netbox/ipam/tests/test_models.py:18-22 | storing a candidate that `clean` admitted keeps "no two clashing records in an enforcing partition" |
| `Containment.ParentOf` | netbox/ipam/tests/test_models.py:69-73 | the implied Prefix has the address's VRF and length and contains the address |
| `Containment.Repair` | netbox/ipam/tests/test_models.py:63-75 | with the flag off the Prefix table is unchanged; with it on the parent exists afterwards; the table grows only by the parent, and only when no equal Prefix was in that partition |
| `Containment.CountNetwork` | netbox/ipam/tests/test_models.py:66-67 | the number of stored records whose network equals the given one, in any VRF: at most the table's size, and zero exactly when no record has that network |
| `Containment.RepairPreservesDistinct` | netbox/ipam/tests/test_models.py:69-75 | saving an address keeps a Prefix table without clashes free of them |
| `Containment.RepairLeavesExactlyOneParent` | netbox/ipam/tests/test_models.py:69-75 | with the flag on, exactly one Prefix for the parent network exists in the address's partition afterwards, whenever that partition held at most one before; duplicates elsewhere do not matter |
| `Containment.RepairIdempotent` | netbox/ipam/tests/test_models.py:74-75 | saving a second address with the same parent leaves the Prefix table as the first save left it |
| `Containment.RepairCountsNetwork` | netbox/ipam/tests/test_models.py:66-75 | the number of Prefixes with the parent network grows by one when the partition lacked it and is unchanged otherwise |
| `Containment.RepairedParentPassesClean` | netbox/ipam/tests/test_models.py:69-73 | a parent Prefix the repair creates would pass `clean` under any policy |
| `Containment.RepairPreservesUniqueness` | netbox/ipam/tests/test_models.py:69-75 | saving an address keeps the Prefix table unique under whatever policy held before |
| `Ipam.Store.constructor` | netbox/ipam/tests/test_models.py:10-11 | a new store has no VRFs, no Prefixes and no addresses |
| `Ipam.Store.CreateVrf` | netbox/ipam/tests/test_models.py:25 | adds a VRF with a fresh id and the given `enforce_unique`; the record tables are unchanged |
| `Ipam.Store.CreatePrefix` | netbox/ipam/tests/test_models.py:14 | appends the Prefix, which must be a base address, without running `clean`; nothing else changes |
| `Ipam.Store.CreateIPAddress` | netbox/ipam/tests/test_models.py:63-75 | appends the address, and the Prefix table becomes `Repair` of the old one |
| `Ipam.Store.AdmitPrefix` | netbox/ipam/tests/test_models.py:12-34 | returns `clean`'s outcome, appends the Prefix only when admitted, and keeps the Prefix table unique |
| `Ipam.Store.AdmitIPAddress` | netbox/ipam/tests/test_models.py:39-75 | returns `clean`'s outcome; when admitted it stores the address and repairs the Prefix table; both tables stay unique |
| `IpamScenarios.PrefixDuplicateGlobal` | netbox/ipam/tests/test_models.py:12-16 | with global uniqueness off, a second global 192.0.2.0/24 is admitted |
| `IpamScenarios.PrefixDuplicateGlobalUnique` | netbox/ipam/tests/test_models.py:18-22 | with global uniqueness on, it is refused as a duplicate |
| `IpamScenarios.PrefixDuplicateVrf` | netbox/ipam/tests/test_models.py:24-28 | a duplicate in a VRF with `enforce_unique` false is admitted, for either global setting |
| `IpamScenarios.PrefixDuplicateVrfUnique` | netbox/ipam/tests/test_models.py:30-34 | a duplicate in a VRF with `enforce_unique` true is refused, for either global setting |
| `IpamScenarios.AddressDuplicateGlobal` | netbox/ipam/tests/test_models.py:39-43 | a second global 192.0.2.1/24 is admitted with global uniqueness off |
| `IpamScenarios.AddressDuplicateGlobalUnique` | netbox/ipam/tests/test_models.py:45-49 | it is refused as a duplicate with global uniqueness on |
| `IpamScenarios.AddressDuplicateVrf` | netbox/ipam/tests/test_models.py:51-55 | a duplicate address in a non-enforcing VRF is admitted |
| `IpamScenarios.AddressDuplicateVrfUnique` | netbox/ipam/tests/test_models.py:57-61 | a duplicate address in an enforcing VRF is refused |
| `IpamScenarios.TestHostsShareParent` | netbox/ipam/tests/test_models.py:71-74 | 192.0.2.1/24 and 192.0.2.2/24 both have the parent 192.0.2.0/24 |
| `IpamScenarios.PrefixAutoCreateDisabled` | netbox/ipam/tests/test_models.py:63-67 | with AUTO_PREFIX_CREATE off, saving 192.0.2.1/24 leaves no Prefix 192.0.2.0/24 |
| `IpamScenarios.PrefixAutoCreateEnabled` | netbox/ipam/tests/test_models.py:69-75 | with it on, one Prefix 192.0.2.0/24 exists after saving 192.0.2.1/24, and still one after saving 192.0.2.2/24 |

## Left out

- The implementation module `ipam.models` is not part of this model. The behaviour modelled is what its tests fix, plus the documented rule for the parent Prefix.
- Django's ORM, `TestCase` and `override_settings` are left out. The database is modelled as sequences in one object, and the settings as parameters.
- netaddr parsing and formatting are left out. Networks are `(address, length)` integer pairs.
- IPv6 is left out. The tests use only IPv4, so the width is fixed at 32 bits.
- The exclusion of the record itself when an already saved object is cleaned again is left out. The tests only clean unsaved candidates.
- The tests do not say whether two addresses with the same host but different masks clash. The model compares host and mask together, so `192.0.2.1/24` and `192.0.2.1/25` do not clash.
- Overlap and containment between networks that are not equal are not checked. Uniqueness is exact match only, as in the tests.
- The text and class of `ValidationError` are left out. A refusal is `Rejected` with the clashing record.
- VRF name and route distinguisher, and Prefix and IPAddress attributes other than the network and the VRF, are left out. They play no part in uniqueness.
- Changing a VRF's `enforce_unique` after records exist is not modelled. The tests never do it, and it may break `UniqueUnder` for records already stored.
- Concurrent saves that race on the check-then-create are left out. The model is sequential, so a parent Prefix created by a concurrent save, which would be accepted as already present, cannot arise.
- How a Prefix given with host bits set (such as 192.0.2.1/24) is handled, whether normalised or refused, is not modelled. The store requires base addresses for Prefixes.
- Storage errors and deleting records are left out. Neither appears in the tests.
