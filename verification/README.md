# Verification of the hostnic CNI plugin

Hostnic gives each Kubernetes pod an address of a network interface (NIC) that the QingCloud platform attaches to the
node. A daemon keeps a pool of NICs and addresses, answers the CNI plugin over gRPC, and sets up iptables; the plugin
sets up the routes and policy rules of each pod. This project models the parts whose correctness is not visible from
one function and proves what they promise. Check it with `dafny verify dfyconfig.toml`.

## Components

* **Wire format** (`Varint`, `Wire`, `WireTheorems`, `KnownFields`, `Conformance`, `RpcFields`, `RpcMessages`). The
  generated protobuf code as classes that write arrays and loop over input. `Wire` says what bytes mean, over any list
  of typed fields; every generated method is proved against it, `WireTheorems` proves what the Protocol Buffers
  Encoding promises about it, and `Conformance` says where the two differ.
* **Address store** (`Store`, `DataStore`, `StoreInvariants`, `StoreRuns`, `StoreLaws`, `RecoveredPods`). `Store`
  gives each locked operation as a relation between two states and a reply, because Go's map order is free; class
  `DataStore` refines it, and the invariants and whole-run theorems are about the relations.
* **Daemon** (`Ipam`, `Pool`, `Recovery`). The gRPC handlers, the pool manager and start-up recovery, driving the
  store.
* **Policy routing** (`IpRules`, `Driver`, `RuleUpdate`, `PolicyRouting`, `NodeRuns`, `KernelRouting`). The kernel's
  rule list in lookup order, the functions that edit it, first-match lookup, and runs of a node with restarts.
* **Address translation** (`Iptables`, `SnatMeaning`, `PodTraffic`). The chains built for the VPC networks, a walk of
  the NAT table, and both mechanisms together.
* **Node networks** (`Vxnet`). The choice of a free /24.

## Hypotheses

* A clock reading is taken once for each locked operation and never goes back. Go's zero time is `Never`, further back
  than any duration.
* Fair environment: an address added is not empty and on no other NIC; an address asked for by name is held by no
  other pod. The source checks neither (pkg/ipam/datastore/datastore.go:187 looks within one NIC only, and 276-284
  hands out a named address that is in use). `StoreInvariants.AddSharesExactly` and `StoreRuns.RecoverSharesExactly`
  show that exclusive assignment is lost exactly where these fail.
* The cooling theorem starts once recovery is over (pkg/ipam/ipam.go:347-353): requests name no address and NICs leave
  by the pool manager only.
* Rules of others may stand at any priority but 512, 1024 and 1536. Over runs they have no source, because tear-down
  and recovery delete by source address.
* A packet carries the tables that have no route for it: the kernel then goes on to the next rule.
* POSTROUTING holds no managed rule but the jump to the first chain.

## Findings

* A recovered pod is stored under the container of its first container status (pkg/k8sclient/pod.go:52), while
  DelNetwork names the sandbox and then no container (pkg/ipam/grpc_handlers.go:66-80). Unless these are the same,
  both tries miss, the reply is a success without an address, and the address is never freed
  (`RecoveredPods.ReleaseMisses`, `RecoveredPods.ReleasedIfNamed`, `RecoveredPods.NeverFreed`).
* On such a reply the plugin does not tear the pod down (cmd/hostnic/hostnic.go, the branch for an empty address), so
  its rules stay. Set-up tolerates rules that exist: if the address comes back on another NIC, the old rules stay
  first and send the new pod's traffic to the old table (`NodeRuns.LeftoverDecides`, condition in
  `Driver.SetupAgrees`).
* `UpdateRuleListBySrc` returns at the first rule that exists, so a repeated VPC network makes a pod that had rules
  lose its route to the networks after it (`RuleUpdate.RepeatLosesRoute`); a fresh set-up tolerates the repetition.
* With external SNAT on, recovery replaces a pod's rules by one for all destinations (`RuleUpdate.ExternalReplaces`),
  while a fresh set-up, told `UseExternalSNAT: false` (pkg/ipam/grpc_handlers.go:51), installs one for each network.
  `Recovery.RecoveryAgrees` gives the exact condition for both.
* A restart with another connection mark leaves the rule of the old mark for good (`NodeRuns.StaleMarkStays`,
  condition in `NodeRuns.HostKeepsExactly`).
* The second run of host set-up is not idempotent if an unwanted rule was there twice: each run removes one copy
  (`SnatMeaning.SecondCopyRemains`, condition in `SnatMeaning.SecondRun`).
* The VPN address x.y.255.254 gets a policy rule but no SNAT chain: outside the VPC networks its traffic leaves by the
  pod's NIC and is still translated to the primary address (`PodTraffic.VpnIsTranslated`, in general
  `PodTraffic.PodToElsewhere`).
* docs/proposal.md:76-80 prints one SNAT rule for one network; the code builds a chain for each VPC network. The model
  follows the code, and `SnatMeaning.SnatExactly` proves the documented meaning of it.
* Skipping looks at no number inside a group and at none at its end (pkg/rpc/message.pb.go:1535-1564), and takes
  numbers and lengths the Encoding does not have (`Conformance.OtherNumberAccepted`, `Conformance.NumberZeroAccepted`,
  exact condition in `Conformance.SkipExactly`). A tag is cut to 32 bits, so a number that does not fit can set a
  known field (`Conformance.WrappedNumberTaken`, condition in `Conformance.NumberExactly`).

## Model

| member | source | states |
|---|---|---|
| WireTheorems.RoundTrip | pkg/rpc/message.pb.go:910-1134 | parsing the print of any message into the zero message of its type gives the message back and no error, for all strings, every int32 and any list with empty elements |
| WireTheorems.ParsePrinted | pkg/rpc/message.pb.go:910-1134 | parsing the print of n into any message m of its type gives the merge: n's set fields replace m's, n's repeated elements are appended |
| WireTheorems.LastOneWins | pkg/rpc/message.pb.go:910-1134 | two prints back to back parse to their merge ("Last One Wins" of the Protocol Buffers Encoding) |
| WireTheorems.ParseStream | pkg/rpc/message.pb.go:910-1134 | stream homomorphism: once input a is accepted, a followed by any b parses (errors included) as b parsed from where a ended |
| WireTheorems.UnknownInvisible | pkg/rpc/message.pb.go:1114-1127 | a field with an unknown positive number (any wire type, tags and lengths in any varint form, groups nested to any depth with any numbers inside and at their end), put between accepted input and anything at all, changes neither the decoded message nor the error |
| WireTheorems.SkipUnknown | pkg/rpc/message.pb.go:1477-1575 | skipping measures exactly the field that starts the input, whatever follows it, through groups nested to any depth, whatever their numbers |
| WireTheorems.SkippedIsField | pkg/rpc/message.pb.go:1477-1575 | conversely, on every input, the bytes skipped within its end are one such field, unless they are a lone end-group tag |
| Conformance.SkipExactly | pkg/rpc/message.pb.go:1477-1575 | on every input skipped within its end: the bytes are a field of the Protocol Buffers Encoding if and only if, at every depth, its number is from 1 to 536870911, its length is below 2^31, and its groups are closed by their own numbers |
| Conformance.StrictExactly | pkg/rpc/message.pb.go:1535-1564 | the same for a given field in front of any input; if it conforms, both measure it alike |
| Conformance.StrictAgrees | pkg/rpc/message.pb.go:1477-1575 | on every input, what the Encoding accepts the source measures alike |
| Conformance.OtherNumberAccepted | pkg/rpc/message.pb.go:1535-1564 | an empty group closed by another number: parsed as an unknown field, and no field of the Encoding |
| Conformance.NumberZeroAccepted | pkg/rpc/message.pb.go:1535-1564 | the bytes 0b 00 00 0c: a group closed by its own number with a field of number 0 inside, parsed as an unknown field, and no field of the Encoding |
| Conformance.NumbersEnd | pkg/rpc/message.pb.go:1477-1575 | a printed varint field is one of the Encoding exactly up to number 536870911 |
| Conformance.NumberExactly | pkg/rpc/message.pb.go:914-937 | the number read from a tag is the number in it if and only if that fits an int32 |
| Conformance.WrappedNumberTaken | pkg/rpc/message.pb.go:914-937 | an input where it is not: a tag with a number 2^32 higher sets the known field |
| WireTheorems.SkipStable | pkg/rpc/message.pb.go:1477-1575 | a field that fits is measured alike whatever input follows |
| WireTheorems.UnmarshalKeepsType | pkg/rpc/message.pb.go:910-1134 | parsing any bytes, even ending in an error, keeps field numbers and kinds of values |
| RpcMessages.Received | pkg/rpc/message.pb.go:401-409 | what a client decodes from the bytes of a reply is the reply sent: Marshal then Unmarshal into a new object, no error |
| RpcMessages.AddNetworkRequest.MarshalTo | pkg/rpc/message.pb.go:363-399 | writes exactly the message's print at the start of the buffer, returns its length, and leaves the rest of the buffer as it was |
| RpcMessages.AddNetworkRequest.Layout | pkg/rpc/message.pb.go:363-399 | the bytes of the message key by key, with the keys and their order spelled out, empty fields left out |
| RpcMessages.AddNetworkRequest.Size | pkg/rpc/message.pb.go:597-621 | the announced size is the length of the print |
| RpcMessages.AddNetworkRequest.Marshal | pkg/rpc/message.pb.go:353-361 | a buffer of Size() bytes is filled exactly |
| RpcMessages.AddNetworkRequest.Unmarshal | pkg/rpc/message.pb.go:715-909 | for every byte sequence the loop ends with the fields and the error of the reference parse from the fields before the call, partial updates before an error included |
| RpcMessages.AddNetworkRequest.UnmarshalField | pkg/rpc/message.pb.go:715-909 | one turn of the loop: consumes at least one byte and stands for the reference parse of the rest, or stops with its error |
| RpcMessages.AddNetworkReply.MarshalTo | pkg/rpc/message.pb.go:411-475 | writes exactly the message's print at the start of the buffer, returns its length, and leaves the rest of the buffer as it was |
| RpcMessages.AddNetworkReply.Layout | pkg/rpc/message.pb.go:411-475 | the bytes of the message key by key, with the keys and their order spelled out, empty fields left out |
| RpcMessages.AddNetworkReply.Size | pkg/rpc/message.pb.go:623-654 | the announced size is the length of the print |
| RpcMessages.AddNetworkReply.Marshal | pkg/rpc/message.pb.go:401-409 | a buffer of Size() bytes is filled exactly |
| RpcMessages.AddNetworkReply.Unmarshal | pkg/rpc/message.pb.go:910-1134 | for every byte sequence the loop ends with the fields and the error of the reference parse from the fields before the call, partial updates before an error included |
| RpcMessages.AddNetworkReply.UnmarshalField | pkg/rpc/message.pb.go:910-1134 | one turn of the loop: consumes at least one byte and stands for the reference parse of the rest, or stops with its error |
| RpcMessages.DelNetworkRequest.MarshalTo | pkg/rpc/message.pb.go:487-523 | writes exactly the message's print at the start of the buffer, returns its length, and leaves the rest of the buffer as it was |
| RpcMessages.DelNetworkRequest.Layout | pkg/rpc/message.pb.go:487-523 | the bytes of the message key by key, with the keys and their order spelled out, empty fields left out |
| RpcMessages.DelNetworkRequest.Size | pkg/rpc/message.pb.go:656-680 | the announced size is the length of the print |
| RpcMessages.DelNetworkRequest.Marshal | pkg/rpc/message.pb.go:477-485 | a buffer of Size() bytes is filled exactly |
| RpcMessages.DelNetworkRequest.Unmarshal | pkg/rpc/message.pb.go:1135-1329 | for every byte sequence the loop ends with the fields and the error of the reference parse from the fields before the call, partial updates before an error included |
| RpcMessages.DelNetworkRequest.UnmarshalField | pkg/rpc/message.pb.go:1135-1329 | one turn of the loop: consumes at least one byte and stands for the reference parse of the rest, or stops with its error |
| RpcMessages.DelNetworkReply.MarshalTo | pkg/rpc/message.pb.go:535-568 | writes exactly the message's print at the start of the buffer, returns its length, and leaves the rest of the buffer as it was |
| RpcMessages.DelNetworkReply.Layout | pkg/rpc/message.pb.go:535-568 | the bytes of the message key by key, with the keys and their order spelled out, empty fields left out |
| RpcMessages.DelNetworkReply.Size | pkg/rpc/message.pb.go:682-700 | the announced size is the length of the print |
| RpcMessages.DelNetworkReply.Marshal | pkg/rpc/message.pb.go:525-533 | a buffer of Size() bytes is filled exactly |
| RpcMessages.DelNetworkReply.Unmarshal | pkg/rpc/message.pb.go:1330-1476 | for every byte sequence the loop ends with the fields and the error of the reference parse from the fields before the call, partial updates before an error included |
| RpcMessages.DelNetworkReply.UnmarshalField | pkg/rpc/message.pb.go:1330-1476 | one turn of the loop: consumes at least one byte and stands for the reference parse of the rest, or stops with its error |
| RpcFields.SkipMessage | pkg/rpc/message.pb.go:1477-1575 | the loop with its group recursion computes the reference length or error and ends on every non-empty input, so `panic("unreachable")` is not reached |
| RpcFields.ReadTag | pkg/rpc/message.pb.go:914-937 | the tag's number and wire type, or the parse stops: overflow, end of input, end-group, number not positive |
| RpcFields.ReadInt32 | pkg/rpc/message.pb.go:1017-1035 | the int32 loop, with shifts by 32 or more giving 0, gathers the low 32 bits of the varint; it is the one field that changes when the varint is cut short |
| RpcFields.ReadBool | pkg/rpc/message.pb.go:939-958 | a varint of any length, true unless its 64-bit word is 0; another wire type stops the parse |
| RpcFields.ReadString | pkg/rpc/message.pb.go:959-987 | a length and that many bytes; negative lengths and lengths past the end stop the parse and keep the field |
| RpcFields.ReadStrings | pkg/rpc/message.pb.go:1085-1113 | each occurrence is appended to the repeated field |
| RpcFields.SkipUnknownField | pkg/rpc/message.pb.go:1114-1127 | the default case: steps over the whole field from its tag, or stops the parse |
| RpcFields.WriteStrings | pkg/rpc/message.pb.go:459-473 | every element of the repeated field is written, empty ones too |
| RpcFields.WriteInt32 | pkg/rpc/message.pb.go:438-442 | 0 is not written; a negative number is sign-extended to 64 bits |
| RpcFields.SizeStrings | pkg/rpc/message.pb.go:647-652 | the sum over the elements is the length of their print |
| Varint.EncodeVarintMessage | pkg/rpc/message.pb.go:588-596 | writes the shortest varint of v at the offset and touches nothing after it |
| Varint.SovMessage | pkg/rpc/message.pb.go:702-711 | the announced size of a varint is the number of bytes written, for every uint64 |
| Varint.DecodeVarint | pkg/rpc/message.pb.go:1477-1498 | the decoding loop: the 64-bit word and the low 32 bits of the groups read, the index reached, and overflow after ten bytes or end of input |
| Varint.Gather | pkg/rpc/message.pb.go:1019-1036 | or-ing a seven-bit group in at its place adds it, in a 64-bit word and, with shifts of 32 and more giving 0, in 32 bits |
| Varint.ReadWord | pkg/rpc/message.pb.go:588-596 | a varint printed in front of anything is read back and nothing after it is consumed |
| Varint.EncodedForm | pkg/rpc/message.pb.go:588-596 | what is printed for v stands for v in 7-bit groups, the first least significant; every byte but the last has the continuation bit, and the last is no zero group |
| Varint.ReadExactly | pkg/rpc/message.pb.go:914-927 | reading ends at the first byte without the continuation bit, among the first ten, with the number of its groups; it overflows exactly if ten bytes continue, and meets the end exactly if all of a shorter input do |
| Varint.SignExtendExactly | pkg/rpc/message.pb.go:438-442 | an int32 is printed as the 64-bit word congruent to it: in its own shortest form if it is not negative, in ten bytes if it is |
| Varint.TruncateExactly | pkg/rpc/message.pb.go:1030-1036 | a word is cut to the int32 congruent to it modulo 2^32, so an int32 is kept |
| KnownFields.BoolTaken | pkg/rpc/message.pb.go:939-958 | a bool under any tag of its number is true unless its 64-bit word is 0 |
| KnownFields.Int32Taken | pkg/rpc/message.pb.go:1017-1035 | an int32 becomes the number congruent to its word modulo 2^32 |
| KnownFields.CutOff | pkg/rpc/message.pb.go:1017-1035 | an int32 cut off after the byte 85 becomes 5 with an end-of-input error; a bool keeps its value |
| KnownFields.StringTaken | pkg/rpc/message.pb.go:959-987 | a string is as many bytes as its length says; in a list it is appended |
| KnownFields.BadLengthStops | pkg/rpc/message.pb.go:974-983 | a longer length stops the parse and leaves the message, with an invalid-length error from 2^63 on and end of input below |
| KnownFields.WrongTypeStops | pkg/rpc/message.pb.go:939-942 | a known field under another wire type stops the parse and leaves the message |
| KnownFields.BadTagStops | pkg/rpc/message.pb.go:928-937 | an end-group tag, or else a number that is not positive, stops the parse and leaves the message |
| KnownFields.SkipTable | pkg/rpc/message.pb.go:1499-1574 | how far a field of each wire type reaches after a one-byte tag, and that 6 and 7 are illegal |
| StoreRuns.CoolingSurvives | pkg/ipam/datastore/datastore.go:313-335 | in a run of requests and pool ticks an address released at t0 is handed out at t1 only if t1 - t0 > 30 s, even if its NIC was removed and the address came back on another NIC |
| StoreLaws.ThirtySeconds | pkg/ipam/datastore/datastore.go:15-21 | the same in seconds: more than 30 of them |
| StoreLaws.YoungNICStays | pkg/ipam/datastore/datastore.go:319-321 | in any run, between the addition of a NIC and its removal by a pool tick at least 60 seconds pass |
| StoreLaws.RemovalExactly | pkg/ipam/datastore/datastore.go:313-377 | a pool tick removes a NIC if and only if one is not primary, has nothing in use, and is 60 seconds past its creation and its last release; it removes such a one and nothing else |
| StoreLaws.CooledExactly | pkg/ipam/datastore/datastore.go:286-296 | a new pod gets an address if and only if one is free and was never released, or more than 30 seconds ago |
| StoreLaws.ReleaseStamps | pkg/ipam/datastore/datastore.go:425-440 | a release frees the address and stamps it and its NIC with the moment |
| StoreLaws.NeverShared | pkg/ipam/datastore/datastore.go:234-298 | exclusive assignment spelled out over every fair run: no two pods share an address, each pod's is marked as used on a NIC with the device number it was told, and every used one belongs to a pod |
| StoreLaws.NICAddedRemoved | pkg/ipam/datastore/datastore.go:151-172 | removing an added NIC brings the store back |
| StoreLaws.AddressAddedDeleted | pkg/ipam/datastore/datastore.go:175-230 | deleting an added address brings the store back |
| StoreLaws.AddressAddedTwice | pkg/ipam/datastore/datastore.go:175-199 | the reply to an addition, and that the same again is refused and changes nothing |
| StoreLaws.InUseStays | pkg/ipam/datastore/datastore.go:202-230 | an address in use cannot be deleted, nor its NIC removed in either way |
| StoreLaws.AssignedAgain | pkg/ipam/datastore/datastore.go:238-253 | a pod with an address gets it again exactly if it names it; either way nothing changes |
| StoreInvariants.StepCounted | pkg/ipam/datastore/datastore.go:151-444 | conservation: every operation, whatever its reply, keeps total, assigned, each NIC's counter and each map key equal to what they stand for |
| StoreRuns.ExclusiveForever | pkg/ipam/datastore/datastore.go:234-298 | in every state of every fair run from the empty store: all counters right, no two pods share an address, each pod's address is in use on the NIC whose device number it was told, that number is above 0, `len(podsIP)` equals `assigned`, `ErrUnknownPodIP` is never returned |
| StoreInvariants.StepPositive | pkg/ipam/datastore/datastore.go:151-444 | every NIC keeps its device number, and new ones have one above 0 |
| StoreInvariants.CountedBounds | pkg/ipam/datastore/datastore.go:300-311 | 0 <= assigned <= total |
| StoreInvariants.StepExclusive | pkg/ipam/datastore/datastore.go:151-444 | every operation used fairly keeps pods and addresses in use in bijection, with matching device numbers, and never replies `ErrUnknownPodIP` |
| StoreInvariants.UnassignExclusive | pkg/ipam/datastore/datastore.go:406-444 | a release answers with the address and device number the pod was told, or unknown pod |
| StoreRuns.PodsAreCounted | pkg/ipam/datastore/datastore.go:406-444 | as many pods as addresses in use |
| StoreRuns.SearchComplete | pkg/ipam/datastore/datastore.go:262-298 | for every map iteration order, a search without a wanted address succeeds if and only if some address is free and past its cooling; a failure changes nothing; a success gives the pod an address no other pod has |
| StoreRuns.FullMeansFull | pkg/ipam/datastore/datastore.go:265-270 | a NIC skipped as full has no free address, so the skip agrees with exhaustive search |
| StoreRuns.RecoverComplete | pkg/ipam/datastore/datastore.go:274-285 | asking for an address by name succeeds if and only if some NIC has it |
| StoreRuns.RecoverSharesExactly | pkg/ipam/datastore/datastore.go:276-284 | asked by a new pod for a named address, exclusivity survives if and only if no pod holds that address: the store hands an address in use to whoever names it |
| StoreInvariants.AddSharesExactly | pkg/ipam/datastore/datastore.go:175-199 | an address added to a NIC keeps exclusivity if and only if it is not empty and on no other NIC |
| StoreRuns.AddThenDel | pkg/ipam/grpc_handlers.go:26-87 | AddNetwork then DelNetwork for one pod: same reply, and the store is what it was but for the release times of that NIC and address |
| StoreRuns.FirstPod | pkg/ipam/datastore/datastore.go:151-298 | a fair run of five steps from the empty store: a NIC and its address added, a pod gets the address and gives it back, and after the cooling period another pod gets it; the hypotheses of the whole-run theorems can be met |
| StoreRuns.ReleaseExactly | pkg/ipam/grpc_handlers.go:62-87 | DelNetwork's two tries release exactly the pod with its container, else the pod without one, else nobody; the reply is what that pod was told; every other pod is left alone |
| RecoveredPods.ReleasedIfNamed | pkg/k8sclient/pod.go:47-53 | a DelNetwork with container c releases a pod known under container k if and only if k is c or empty; otherwise, if no pod of that name is known without a container, the store is unchanged and the reply unknown pod |
| RecoveredPods.NeverFreed | pkg/ipam/grpc_handlers.go:62-87 | over any fair run without a release in its name a pod keeps its address: it stays in use and no other pod ever gets it |
| RecoveredPods.ReleaseMisses | pkg/ipam/grpc_handlers.go:66-80 | an input: a pod recovered under one container and a DelNetwork naming another; the store is unchanged and the address still in use |
| DataStores.DataStore.AddNIC | pkg/ipam/datastore/datastore.go:151-172 | new state and reply of each branch: bad device number, duplicate, added empty with its creation time |
| DataStores.DataStore.AddIPv4AddressFromStore | pkg/ipam/datastore/datastore.go:175-199 | new state and reply of each branch; a new address is free and never released |
| DataStores.DataStore.DelIPv4AddressFromStore | pkg/ipam/datastore/datastore.go:202-230 | new state and reply of each branch; an address in use stays |
| DataStores.DataStore.AssignPodIPv4Address | pkg/ipam/datastore/datastore.go:234-259 | a pod with an address gets it again only by naming it, else the multiple-address error; a new pod goes through the search |
| DataStores.DataStore.AssignPodIPv4AddressUnsafe | pkg/ipam/datastore/datastore.go:262-298 | the nested search, in any map order, settles on some candidate address and hands it out, and fails, changing nothing, only if there is none |
| DataStores.DataStore.GetDeletableNIC | pkg/ipam/datastore/datastore.go:313-335 | returns a NIC that is not primary, past both ages and without addresses in use; nil only if there is none |
| DataStores.DataStore.RemoveUnusedNICFromStore | pkg/ipam/datastore/datastore.go:356-377 | removes one deletable NIC with its addresses and returns its name, or changes nothing |
| DataStores.DataStore.RemoveNICFromDataStore | pkg/ipam/datastore/datastore.go:380-402 | new state and reply of each branch; a NIC with addresses in use stays |
| DataStores.DataStore.UnassignPodIPv4Address | pkg/ipam/datastore/datastore.go:406-444 | gives back the pod's address on a NIC where it is in use, stamps address and NIC, forgets the pod; unknown pod and unknown address change nothing |
| Ipam.IpamD.AddNetwork | pkg/ipam/grpc_handlers.go:26-59 | a request never names an address; the reply carries the store's answer, device number cut to int32, all VPC networks, and the error text |
| Ipam.IpamD.DelNetwork | pkg/ipam/grpc_handlers.go:62-87 | the two tries on the store; unknown both times is a success without an address |
| Pool.PoolSettles | pkg/ipam/pool_manager.go:37-98 | over any run of quiet ticks the distance of the free count from the band shrinks by one a tick until it is 0, and then the state stays |
| Pool.TickMoves | pkg/ipam/pool_manager.go:37-98 | one tick moves the free count by exactly one towards the band, or, inside it, changes nothing |
| Pool.TickExclusive | pkg/ipam/pool_manager.go:37-98 | a tick keeps the counters, exclusive assignment and every pod's address, whatever the cloud and the links answer |
| Pool.NICRegistered | pkg/ipam/ipam.go:238-264 | a NIC of a new name is registered under the cloud's device number if that is above 0, else under its link's index, else not at all; as primary or not as it is, with its address unless it is primary or its network failed |
| Pool.NICKnown | pkg/ipam/ipam.go:248-262 | a known NIC keeps what it is registered with and gets its address if that is missing |
| Pool.PodIsToldDevice | pkg/ipam/grpc_handlers.go:26-59 | the pod that gets the address of a NIC set up before is told that NIC's own device number |
| Pool.FreeNICDeletable | pkg/ipam/datastore/datastore.go:313-335 | with one address a NIC, a NIC whose address is free, once aged, is deletable |
| Ipam.IpamD.UpdateIPPoolIfRequired | pkg/ipam/pool_manager.go:37-43 | at most one NIC is made or removed: made below the band, removed above it, nothing inside |
| Ipam.IpamD.SetupNic | pkg/ipam/ipam.go:238-264 | each branch: link not found, store refuses, duplicate NIC, primary NIC, network set-up failed, address added; a new NIC with a device number above 0 is registered under it |
| Recovery.RecoveryExclusive | pkg/ipam/ipam.go:198-236 | recovering pods with distinct addresses before serving ends in exclusive assignment on the same pool, and every pod whose address is in the pool has it back |
| Recovery.SnapshotExact | pkg/ipam/ipam.go:199-234 | the one rule list read before the loop stays exact for every pod whose turn is still to come, and a pod without a NIC keeps its rules |
| Recovery.IndexIsDevice | pkg/ipam/ipam.go:296-306 | the table recovery finds for a pod the store knows is the device number the store tells it, above 0 |
| Recovery.RecoveryExact | pkg/ipam/ipam.go:198-236 | store and rules together: after the loop each pod the store knows has exactly the rules of one update on its NIC's device number, with external SNAT off or on |
| Recovery.RecoveryAgrees | pkg/ipam/ipam.go:198-236 | each pod the store knows is left with exactly the rules of a fresh set-up on its device number if and only if it had no rules, or external SNAT is off, its rules were on that table, and no network is new after the first repeated one |
| Recovery.FreshAddExact | pkg/driver/driver.go:212-255 | a fresh set-up of a pod without rules leaves exactly its route: one rule for each network and the tunnel, or one for all destinations |
| Recovery.RecoveryIsRun | pkg/ipam/ipam.go:198-236 | recovery from its one snapshot does to the rules what the single updates do one after the other, each seeing the rules of its moment |
| Recovery.RestartClassified | pkg/ipam/ipam.go:198-236 | a restart at any moment of any run (host set-up, then recovery of pods with distinct addresses, with new networks and settings): every packet is then routed as intended |
| Ipam.IpamD.PrepareLocalPods | pkg/ipam/ipam.go:198-236 | the loop: store steps pod by pod, rules updated from the one snapshot, pods without an address or a NIC skipped |
| Ipam.IpamD.RecoverLocalPod | pkg/ipam/ipam.go:205-234 | one turn of that loop |
| Ipam.IpamD.GetNicIndexByIP | pkg/ipam/ipam.go:296-306 | the device number of a NIC with that address, -1 if and only if there is none |
| RuleUpdate.UpdateRuleListBySrc | pkg/networkutils/networkutil.go:764-845 | deletes the snapshot's rules, then adds: tolerant of existing rules if the pod had none, else strict and on the table of the last rule |
| RuleUpdate.UpdateExactly | pkg/networkutils/networkutil.go:764-845 | what is left of the pod's rules in each branch: one for each CIDR if it had none, one for each CIDR before the first repeated one on the table of its last rule, or one for all destinations on that table |
| RuleUpdate.UpdateIsRoute | pkg/networkutils/networkutil.go:764-845 | an update replaces the pod's rules by those of one route, and ends in an error if and only if the pod had rules, CIDRs are wanted and one repeats |
| RuleUpdate.UpdateAgrees | pkg/networkutils/networkutil.go:764-845 | the pod is left with the rules of a fresh set-up on table t if and only if it had none and is given t, or its rules were on t, CIDRs are wanted and none is new after the first repetition |
| RuleUpdate.RepeatLosesRoute | pkg/networkutils/networkutil.go:810-829 | an input for which it does not: [c, c, d] ends in an error without the rule for d |
| RuleUpdate.LastTableKept | pkg/networkutils/networkutil.go:776-779 | of rules on two tables the last one's table is kept |
| RuleUpdate.ExternalReplaces | pkg/networkutils/networkutil.go:830-843 | another such input: with external SNAT on a rule for one network is replaced by one for all destinations |
| RuleUpdate.UpdateOtherSrc | pkg/networkutils/networkutil.go:764-845 | an update touches no rule from another address |
| IpRules.GetRuleListBySrc | pkg/networkutils/networkutil.go:721-729 | exactly the rules whose source has that address, in order |
| IpRules.DeleteRuleListBySrc | pkg/networkutils/networkutil.go:732-761 | deletes exactly the rules from that address and leaves all others in their order |
| IpRules.DeleteEachOfSrc | pkg/networkutils/networkutil.go:732-761 | deleting rule by rule with each as a template, unset parts matching anything, removes those rules and no other |
| IpRules.VPNBytes | pkg/networkutils/networkutil.go:847-857 | the gateway of b0.b1.b2.b3 is b0.b1.255.254, alone |
| Driver.SetupNS | pkg/driver/driver.go:195-265 | host route, to-pod rule, then one from-pod rule (external SNAT) or one for each network and the tunnel; an existing rule ends the work only where the source returns it |
| Driver.AddContainerRule | pkg/driver/driver.go:268-289 | delete then add; fails if a second copy is there |
| Driver.AddFromPodRules | pkg/driver/driver.go:240-262 | one rule for each CIDR in order; one that exists is no error |
| Driver.TearDownNS | pkg/driver/driver.go:297-331 | the to-pod rule, all rules from the pod if its table is not main, and its host route are gone |
| Driver.SetupThenTeardown | pkg/driver/driver.go:195-331 | set-up then tear-down is the identity on rule list, order included, and routes, when the pod had none before, for any CIDR list |
| Driver.SetupOthers | pkg/driver/driver.go:195-265 | set-up leaves every other rule in its place, from any rule list |
| Driver.TeardownOthers | pkg/driver/driver.go:297-331 | tear-down leaves every other rule in its place, from any rule list |
| Driver.SetupOneToPod | pkg/driver/driver.go:212-233 | from a list without rules of the pod set-up succeeds and one deletion clears the to-pod rules |
| Driver.SetupAgrees | pkg/driver/driver.go:212-264 | a successful set-up over any rules left from the pod leaves exactly the fresh route if and only if all of them belong to it; with external SNAT, if and only if there was none but one it replaces |
| Driver.MainTableKeeps | pkg/driver/driver.go:234-331 | a set-up or tear-down with table 0 or less leaves the from-pod rules; a tear-down on a NIC table takes them all, and no to-pod rule at 512 is left |
| PolicyRouting.Classified | pkg/driver/driver.go:212-264 | for any rule list that holds exactly the managed rules of a plan among any rules of others: first match by priority sends every packet to main if it is for a pod, else to main if marked, else by the first of its source's from-pod rules that selects it, else on to the other rules; a rule of others goes first exactly if its priority is earlier |
| PolicyRouting.RouteDecides | pkg/driver/driver.go:234-262 | from-pod rules that are exactly those of one route take the pod's traffic to the route's destinations, and no other, by its table |
| PolicyRouting.LocalFirst | pkg/driver/driver.go:17-24 | with the kernel's rule for the local table first, traffic for the node itself goes there, and all other traffic as intended |
| KernelRouting.KernelClassified | pkg/driver/driver.go:17-24 | with the kernel's rules at 0, 32766 and 32767, after any run: local traffic by table 255, to a pod or marked by 254, a pod's own by the first of its from-pod rules that selects it although 254 has a route, all else as the kernel does |
| KernelRouting.PodLeavesByOwnTable | pkg/driver/driver.go:234-262 | there, a pod with the rules of one route sends its unmarked traffic to the route's destinations, and no other, by its own table |
| KernelRouting.FreshPodRouted | pkg/driver/driver.go:195-265 | there, a pod set up last on a NIC table: to the VPC networks and the tunnel, or with external SNAT anywhere, by that table; what is for it by the main table |
| KernelRouting.PlacesOfOthers | pkg/networkutils/networkutil.go:27-36 | a rule of others that selects everything: up to 511 it goes first, from 513 to 1023 after the rules to pods, from 1025 to 1535 after marked traffic too, from 1537 on last |
| NodeRuns.AlwaysClassified | pkg/driver/driver.go:17-24 | the same in every state of every run of host set-ups with any marks, pod set-ups (over any leftovers, with or without external SNAT), tear-downs and recoveries, each with its own networks, in any order |
| NodeRuns.RunKeepsRules | pkg/driver/driver.go:195-331 | every run keeps the managed rules exactly those of its plan, without repetition, the from-pod rules of each address in their order, and the others as they were |
| NodeRuns.SetupKeeps | pkg/driver/driver.go:195-265 | a pod set-up over any rules adds exactly the pod's, external SNAT off or on; it fails if and only if an external from-pod rule is still there after one deletion |
| NodeRuns.LeftoverDecides | pkg/driver/driver.go:240-255 | an input: a set-up on one table over the rules of an earlier one on another, never torn down; the pod's traffic leaves by the old table |
| NodeRuns.TeardownKeeps | pkg/driver/driver.go:297-331 | a pod tear-down removes exactly the pod's rules, its from-pod rules only for a NIC table |
| NodeRuns.RecoverKeeps | pkg/networkutils/networkutil.go:764-845 | an update replaces exactly the pod's from-pod rules by the updated route; it succeeds if and only if the pod had none, external SNAT is on or no destination repeats |
| PolicyRouting.SetupHostRules | pkg/networkutils/networkutil.go:202-220 | the mark rule removed if there, added if node ports are supported; fails if a second copy is left |
| NodeRuns.HostKeepsExactly | pkg/networkutils/networkutil.go:202-220 | after a restart, node ports on or off, the mark rules are those of the new setting if and only if no other mark was used before: the rule of another mark is never removed |
| NodeRuns.StaleMarkStays | pkg/networkutils/networkutil.go:202-220 | an input: mark 0x80, then 0x100, both rules are there |
| SnatMeaning.SnatExactly | pkg/networkutils/networkutil.go:227-283 | from any tables, any CIDR list, any packet: the walk from POSTROUTING ends in SNAT by these rules if and only if external SNAT is off, the destination is in none of the networks and not local, and no other program's rule took it first; the source is then the primary address |
| SnatMeaning.ChainsDecide | pkg/networkutils/networkutil.go:264-283 | entering the chains at number i decides by the networks from i on |
| SnatMeaning.RestartConverges | pkg/networkutils/networkutil.go:229-246 | runs from any two earlier tables translate a packet alike if and only if rules of other programs take it first in both or in neither, or it is not to be translated: leftovers of longer lists or other addresses are never reached |
| SnatMeaning.SecondRun | pkg/networkutils/networkutil.go:365-387 | a second run changes nothing if and only if no unwanted managed rule had a second copy |
| SnatMeaning.SecondCopyRemains | pkg/networkutils/networkutil.go:365-387 | an input for which it does: the jump twice and external SNAT on, the first run removes one copy and the second the other |
| SnatMeaning.AdjustTwice | pkg/networkutils/networkutil.go:368-386 | one rule reconciled twice is as reconciled once if and only if it is wanted or no second copy was there |
| Iptables.SetupHostNetwork | pkg/networkutils/networkutil.go:227-388 | chains created or cleared, rules built, rules reconciled: the tables reach the final tables, whatever they were; with external SNAT off the last chain is one SNAT with the flag of the configured type |
| Iptables.ChainByChain | pkg/networkutils/networkutil.go:252-363 | with external SNAT off the jump stands in POSTROUTING, chain i passes on what is outside network i, and the last holds one SNAT to the primary address, with no flag if and only if ports are sequential and --random-fully if and only if that is asked for and supported; with it on the chains are empty; forward and mark rules are there |
| Iptables.UnwantedGone | pkg/networkutils/networkutil.go:368-386 | the unwanted jump and mark rules are gone if they were there at most once |
| Iptables.ReconcileIsFinal | pkg/networkutils/networkutil.go:365-387 | reconciling the built list from cleared chains gives, chain by chain, the final rules and changes no other chain |
| Iptables.PrepareChains | pkg/networkutils/networkutil.go:229-246 | chains 0 to n exist and are empty, an existing one cleared; nothing else changes |
| Iptables.BuildRules | pkg/networkutils/networkutil.go:252-363 | the list in its order: jump, one rule a network, forward rules, SNAT with its flag, the two mark rules |
| Iptables.ReconcileRules | pkg/networkutils/networkutil.go:365-387 | each rule in turn appended if missing, its first copy removed if unwanted |
| PodTraffic.PodToElsewhere | docs/proposal.md:76-80 | routing and translation together, after any run, for a packet of a pod with a route for the VPC networks to somebody not a pod here: marked traffic by the main table; into the VPC by the pod's own NIC untranslated; elsewhere by the node's other rules with the primary address; to the VPN gateway outside the VPC networks by the pod's NIC and yet translated |
| PodTraffic.PodOnKernel | docs/proposal.md:76-80 | the same on a node with the kernel's own rules, with nothing asked of other rules: into the VPC and to the gateway by the pod's table although the main table has a route, the rest by the main table with the node's address |
| PodTraffic.VpnOfOnePod | pkg/networkutils/networkutil.go:847-857 | for every pod and network that does not hold its gateway, traffic to the gateway leaves by the pod's table under the node's address |
| PodTraffic.VpnIsTranslated | pkg/networkutils/networkutil.go:847-857 | an input: 10.1.0.5 with network 10.2.0.0/16 and gateway 10.1.255.254 |
| Vxnet.ChooseIPFromVxnet | pkg/ipam/vxnet.go:111-125 | the candidate of least index in 1..252 that no network has, written in place, from a /16 a /24 inside it; not found only if all 252 are taken |
| Vxnet.Pigeonhole | pkg/ipam/vxnet.go:118-124 | n candidates that all occur in a list are at most as many as the list |
| Vxnet.RoomForOne | pkg/ipam/vxnet.go:111-125 | with fewer than 252 networks some candidate is free |

## Left out

- The QingCloud client, Kubernetes informers, gRPC transport, logging, metrics, sleeps and environment parsing: what the cloud, the kubelet and the link layer answer are parameters.
- Getters, `String`, descriptors, registration, `encodeFixed*` and `sozMessage` in pkg/rpc/message.pb.go: constants and one-line accessors.
- Veth creation, CNI configuration, `SetupNICNetwork`, `killDhclient`, MTU, rp_filter and ARP writes, `retry.Do`, `LinkByMac`: straight-line system calls.
- `GetNICNeedsIP`, `GetPodInfos`, `GetNICInfos`, `GetNICs` and `GetNICIPPools`: read-only copies and lookups that nothing modelled here calls.
- Sharing of `*NICIPPool` and `*AddressInfo` pointers: the pools are values inside the store's map fields, so handing a pointer out of the lock is not captured. Locks are not modelled; each locked method is one step.
- 64-bit wrap-around of a declared length in the decoder's index arithmetic: indices are mathematical integers.
- Failures of iptables and netlink calls other than an existing chain, an existing rule, a missing rule and a missing route; a second iptables or netlink user in the middle of a set-up.
- Rule texts: iptables rules are datatypes, equal exactly when their texts are. CIDR and address texts are not parsed: networks are numbers with a length, and a recovered pod carries its address both ways.
- Packet meaning of the FORWARD and mangle rules: their exact content is proved, not what they do to packets.
- Routes inside the tables: a lookup ends with the number of the table, and a packet says which tables have no route for it.
- `supportVPNTraffic` is never set in the source; its in-place change of the VPC network (pkg/ipam/grpc_handlers.go:39-44) is not modelled.
- Computing `vpcSubnets` from the VPC's vxnets (pkg/ipam/ipam.go:81-88): the networks are a field of the daemon. Error texts are given for the errors an assignment or a release can end with.
- DataStores.DataStore.RemoveUnusedNICFromStore: requires that each NIC is stored under its own name, which every run keeps (`StoreInvariants.StepCounted`).
- Varint.DecodeVarint: gathers the 64-bit word and the 32-bit word in one loop, where the source has an inlined loop for each field; `& 0x7f` and `>> 7` are written as remainder and quotient.
- SnatMeaning.SnatExactly: other programs' rules in POSTROUTING are given by the set of those that take the packet; the walk has a depth bound, and any bound above the number of networks gives the same verdict.
- Vxnet.ChooseIPFromVxnet: the text of a network is taken to be different for different bytes, and the network of the VPC to have four address bytes.
- Pool.PoolSettles: asks that no request comes in between, that the cloud delivers when a NIC is wanted, and that NICs have aged when one must go.
