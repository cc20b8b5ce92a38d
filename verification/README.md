# IEEE 802.15.4 SDK: flash, MAC PIB, association, radio and scan

This project models the stateful parts of an IEEE 802.15.4 device SDK and proves what they keep,
over every input and every run:

- **Flash.** The byte-level MSPI drivers (`FlashDriver`) are run against a serial NOR chip (`NorChip`)
  that has chip-select frames, a write-enable latch, page programs that wrap inside 256 bytes and cells
  that only go from 1 to 0. `FlashTheory` proves that the page-splitting write loop, through the
  byte protocol, is a flat memory write. `IeeeAddr` builds the persistent device address on it.
- **MAC PIB.** `TnMem` gives node pools and linked lists, `SecTables` a linked list with a separate 8-bit
  count. `RawLists` is the release of a key's sublists on arbitrary memory, shared nodes and all; `KeyLists` and
  `KeyStore` hold the key table with those sublists, and `KeyMaterial` proves conservation over whole runs where
  nodes are not shared. `PibFields` is the record behind the scalar attributes, which is also where the
  tables' list pointers and entry counts lie, and `MacPib` the set, get and delete services over all of it.
- **Coordinator.** `Association` states address assignment and indirect sending as a state machine and
  proves its properties over all runs. `Coordinator` is the application on its tables, pools and
  `end_device` array, each method proved to be one step of that machine.
- **Radio.** `RadioState` is the receive side as a state machine over interrupts, packet arrivals and
  buffer releases; `AckFrame` is the acknowledgment and the parsing behind its pending bit;
  `Radio` is the driver, proved to follow the machine. `Clock` is the wrapping 32-bit tick and
  `Rssi` the energy-detect accumulator and clear-channel assessment.
- **Device scan.** `DevScan` collects beacons in a bounded table and picks the strongest PAN.

Classes hold the fields the program keeps, and a ghost value of the specification state. The invariant
of each class is that its memory represents that value; the hard properties are proved about
the values. Pointers into pools are slot numbers, and a pool is kept as three columns (in use, link,
descriptor).

## What the proofs brought out

- The 8258 `flash_write_page` sends one program command. It is a flat write exactly when the range stays
  in one page (`FlashTheory.UnsplitExactlyWithinPage`). The 826x and 8278 loops and `cfs_flash_op` split, and
  are flat writes for every range inside the 24-bit space.
- A write of length 0 still runs one transaction and leaves the write-enable latch set
  (`FlashTheory.TransactionPerforms`, with a frame that starts nothing).
- `tl_zbMacAttrSet` skips a gap in the identifiers that `tl_zbMacAttrGet` does not skip. Identifiers 0x60 to
  0x6D therefore address the rows of 0x71 to 0x7E, and a get of a security scalar computes a row past the
  table. The rows of 0x61, 0x63 and 0x65 are the entry counts of the key, device and security level
  tables, which every append and delete changes.
- A table request goes through the list pointer and count it finds in the record, and a scalar set through 0x60 to
  0x65, 0x72, 0x74 or 0x76 can overwrite those. The tables stay in order exactly when it writes what is
  already there (`PibFields.OrderKept`), and each of these identifiers has a set that does harm
  (`PibFields.RawIdentifiersHarm`). A table request after such a set can write anywhere, so the laws of
  the record are about runs in which every table request finds the tables in order; runs that leave the
  raw identifiers alone are such runs (`PibFields.OrdinaryRunGoverned`).
- In those runs `PibFields.SetThenGet` gives the exact condition under which a value set is read back, table
  requests included, and no request writes the record's transmit power: a get returns the power last set
  exactly when the record held it from the start (`PibFields.PowerReadBack`).
- `mac_key_free` returns every recorded node of two keys exactly when both lists are as long as their counts,
  in use, without repetition, and share no node (`RawLists.BothReturnedExactlyWhenApart`). The demo applications
  hand the same lookup and usage nodes to every key: freeing the second of two coordinator keys returns one
  node of the four it records (`KeyMaterial.FreeTwoCoordinatorKeys`).
- A first boot cut off between its two flash writes is never completed: later boots all use the address with
  0xFF for its first two bytes (`IeeeAddr.CutOffBoot`).
- The association table refuses a new device after 16, but `device_ext_addr` already holds its address then.
- A secured command that ends before its command byte is acknowledged with a pending bit that depends on the good
  frame received and dropped by the filter before it (`RadioState.EarlierFrameMatters`, both directions);
  such packets exist under the header lengths of the standard (`RadioState.ShortCommandNotSelfContained`).
- A receive interrupt that answers a frame while the driver is not in its RX state leaves the hardware in RX
  (`RadioState.AgreementKept`).
- A stopped energy scan without samples reports mean 0; the initial -110 is overwritten.
- The beacon table has 16 entries and uses 15 (`DevScan.Stored`); `DevScan.ChosenIsStrongestHeard` says when that
  costs the best PAN.
- `clock_time_exceed` multiplies in 32 bits: it is right throughout the first wrap exactly for spans below 2^28
  microseconds (`Clock.SpanExact`).

## Model

| member | source | states |
|---|---|---|
| NorChip.AddrRoundTrip | tl_802154_sdk/platform/chip_826x/flash.c:96-104 | the three address bytes, most significant first, are decoded by the chip as the address modulo 2^24 |
| FlashDriver.Mspi.SendAddr | tl_802154_sdk/platform/chip_826x/flash.c:96-104 | three bytes cross the bus in big-endian order, nothing else changes |
| FlashDriver.Mspi.WaitDone | tl_802154_sdk/platform/chip_826x/flash.c:107-119 | one status frame is clocked until the chip is idle, and chip select ends high |
| FlashDriver.Mspi.WriteRam | tl_802154_sdk/platform/chip_826x/flash.c:149-168 | every call is exactly write enable, one operation frame and polling; chip select is high and the interrupt flag as on entry |
| FlashDriver.Mspi.ReadRam | tl_802154_sdk/platform/chip_826x/flash.c:121-147 | one frame; the buffer gets the bytes the chip shifts out after command, address and dummies |
| FlashDriver.Mspi.ReadPage | tl_802154_sdk/platform/chip_826x/flash.c:175-178 | returns memory from the address on, changes none |
| FlashTheory.TransactionPerforms | tl_802154_sdk/platform/chip_826x/flash.c:149-168 | on a ready chip the operation is performed exactly once with its latch set, and three frames are on the log |
| FlashTheory.ChunksPartition | tl_802154_sdk/platform/chip_826x/flash.c:180-193 | the pieces lie each in one page, are adjacent and together are the input, the empty one included |
| FlashTheory.LatchFits | tl_802154_sdk/platform/chip_8278/flash.c:225 | a stream that does not pass the page end lands byte by byte in the wrapping page buffer |
| FlashTheory.LatchWraps | tl_802154_sdk/platform/chip_8258/flash.c:128-145 | a stream past the page end goes around: byte j is in slot (offset + j) modulo 256 |
| FlashTheory.PageProgramWraps | tl_802154_sdk/platform/chip_8258/flash.c:128-145 | every byte of the chip after one program command of up to a page, wherever it starts |
| Bits.AndBitwise | tl_802154_sdk/platform/chip_8278/flash.c:225 | a bit of a programmed cell is set exactly when it was set before and is set in the data |
| FlashTheory.PageProgramFits | tl_802154_sdk/platform/chip_8278/flash.c:225 | a page program inside its page is old AND data on its range and nothing elsewhere |
| FlashTheory.SplitWriteRefinesFlat | tl_802154_sdk/platform/chip_826x/flash.c:180-193 | the sequence of page-bounded transactions is one flat write for every address and length in 24-bit space |
| FlashDriver.Mspi.WritePage | tl_802154_sdk/platform/chip_8278/flash.c:237-250 | the loop on the bus terminates, sends those transactions, and leaves old AND data in each byte of the range and every other byte as it was |
| FlashTheory.UnsplitExactlyWithinPage | tl_802154_sdk/platform/chip_8258/flash.c:128-145 | one unsplit program command is the flat write for all memories and data if and only if the range stays in a page |
| FlashDriver.Mspi.WritePage8258 | tl_802154_sdk/platform/chip_8258/flash.c:128-145 | the frames on the bus, and what every byte of the chip then is for up to a page of data |
| FlashDriver.Mspi.Erase8258 | tl_802154_sdk/platform/chip_8258/flash.c:108-118 | for commands 0x81, 0x20, 0x52 and 0xD8: the 0x100, 0x1000, 0x8000 or 0x10000 bytes of the aligned block become ones, every other byte stays; the frames on the bus |
| FlashDriver.Mspi.EraseChip8258 | tl_802154_sdk/platform/chip_8258/flash.c:238-248 | every byte becomes all ones |
| FlashTheory.ErasedBlock | tl_802154_sdk/platform/chip_8258/flash.c:184-231 | byte by byte, which block each erase command erases and what it leaves |
| FlashTheory.PerformErase | tl_802154_sdk/platform/chip_8258/flash.c:184-231 | page, sector, 32K and 64K erase frames start and erase exactly the block of the decoded address |
| FlashTheory.ErasedWriteReadsBack | tl_802154_sdk/platform/chip_8278/flash.c:225 | a flat write over erased cells stores exactly the data |
| FlashDriver.Mspi.WriteStatus | tl_802154_sdk/platform/chip_826x/flash.c:202-213 | one or two status bytes by type; the two-command type does nothing |
| FlashDriver.Mspi.WriteStatus16 | tl_802154_sdk/platform/chip_8258/flash.c:298-313 | low then high byte in one status frame |
| FlashDriver.Mspi.ReadStatus16 | tl_802154_sdk/platform/chip_8258/flash.c:320-342 | two read frames, high register in the high byte, live status in the low one |
| FlashTheory.StatusWordRoundTrip | tl_802154_sdk/platform/chip_8258/flash.c:298-342 | a 16-bit status word written is read back, apart from the busy and latch bits |
| FlashDriver.Mspi.CfsFlashWrite | tl_802154_sdk/proj/drivers/drv_flash.c:234-259 | splitting in the configuration store makes the unsplit routine a flat write for every range |
| IeeeAddr.StoreAddress | tl_802154_sdk/ieee802154/mac/mac_pib.c:515-549 | two programs into a blank area leave the address rotated by two bytes, all other flash unchanged |
| IeeeAddr.GenerateIeeeAddr | tl_802154_sdk/ieee802154/mac/mac_pib.c:515-549 | flash and address after a boot, byte by byte: new address for a blank area, the stored one turned back for one of the three prefixes, the stored one as it is otherwise |
| IeeeAddr.BootFollowsRule | tl_802154_sdk/ieee802154/mac/mac_pib.c:515-549 | the boots that the run results are about follow that rule |
| IeeeAddr.RotationRoundTrip | tl_802154_sdk/ieee802154/mac/mac_pib.c:515-549 | the stored form is not blank, is recognised, and rotates back, for all random bytes |
| IeeeAddr.BootSettles | tl_802154_sdk/ieee802154/mac/mac_pib.c:515-549 | a second boot changes neither flash nor address |
| IeeeAddr.AddressPersists | tl_802154_sdk/ieee802154/mac/mac_pib.c:515-549 | any number of boots use the address of the first |
| IeeeAddr.CutOffBoot | tl_802154_sdk/ieee802154/mac/mac_pib.c:515-549 | after a first boot cut off between its writes all later boots agree on one address, the one generated if and only if its first two bytes are 0xFF |
| TnMem.Pool.Alloc | tl_802154_sdk/ieee802154/common/includes/tn_mm.h:42 | a free slot is taken, or none was free |
| TnMem.Pool.Free | tl_802154_sdk/ieee802154/common/includes/tn_mm.h:43 | frees a slot in use, refuses anything else |
| TnMem.Add | tl_802154_sdk/ieee802154/common/includes/tn_list.h:56 | the node becomes the last of the list, other lists keep their links |
| TnMem.Remove | tl_802154_sdk/ieee802154/common/includes/tn_list.h:57 | the node alone leaves the list |
| TnMem.ChainUnique | tl_802154_sdk/ieee802154/common/includes/tn_list.h:47-64 | the heap determines the sequence: one header reaches one list |
| SecTables.SecTable.Alloc | tl_802154_sdk/ieee802154/mac/mac_pib.c:99-127 | a vacant slot becomes held by the caller, or none was vacant |
| SecTables.SecTable.Free | tl_802154_sdk/ieee802154/mac/mac_pib.c:129-157 | a held slot becomes vacant; the pool accepts it |
| SecTables.SecTable.Walk | tl_802154_sdk/ieee802154/mac/mac_pib.c:304-308 | the walk ends at entry index, and the tracked predecessor is the true one |
| SecTables.SecTable.SetEntry | tl_802154_sdk/ieee802154/mac/mac_pib.c:295-319 | at the length appends, below it replaces in place and yields the old node, beyond it fails unchanged |
| SecTables.SecTable.DelEntry | tl_802154_sdk/ieee802154/mac/mac_pib.c:477-491 | removes only the addressed entry, or fails unchanged |
| SecTables.SecTable.GetEntry | tl_802154_sdk/ieee802154/mac/mac_pib.c:406-418 | returns entry index, or fails at and beyond the length |
| SecTables.TableConserved | tl_802154_sdk/ieee802154/mac/mac_pib.c:99-157 | free + held + listed = capacity, in every consistent table |
| SecTables.RoomForOneMore | tl_802154_sdk/ieee802154/mac/mac_pib.c:295-302 | with a held node the 8-bit count cannot wrap on append |
| SecTables.AppendConsistent | tl_802154_sdk/ieee802154/mac/mac_pib.c:295-302 | append keeps list, count and ownership in step |
| SecTables.ReplaceConsistent | tl_802154_sdk/ieee802154/mac/mac_pib.c:303-316 | splice out and link in at the same place keeps them in step |
| SecTables.DeleteConsistent | tl_802154_sdk/ieee802154/mac/mac_pib.c:486-488 | delete keeps them in step |
| RawLists.FreedExactly | tl_802154_sdk/ieee802154/mac/mac_pib.c:160-174 | on any memory, the frees of the release loop all succeed if and only if the nodes met are as many as the count says, all different and all in use |
| RawLists.BothReturnedExactlyWhenApart | tl_802154_sdk/ieee802154/mac/mac_pib.c:160-179 | freeing two keys returns all nodes both record if and only if both lists are whole and share no node |
| RawLists.SameNodesFreedOnce | tl_802154_sdk/ieee802154/mac/mac_pib.c:160-174 | of two keys set up with the same nodes, the first release returns them and the second returns nothing |
| KeyLists.ListsConserved | tl_802154_sdk/ieee802154/mac/mac_pib.c:99-157 | free + held + in some key's list = capacity, for lists without shared nodes |
| KeyLists.ReleaseRepresents | tl_802154_sdk/ieee802154/mac/mac_pib.c:160-174 | releasing a key whose nodes are its own frees exactly its recorded nodes and leaves all other lists as they were |
| KeyLists.SetUpRepresents | tl_802154_sdk/ieee802154/mac/includes/mac_security.h:169-173 | a key set up with held nodes has them as its own |
| KeyLists.KeyList.FreeAll | tl_802154_sdk/ieee802154/mac/mac_pib.c:162-174 | the decrementing loop is the release on any memory, and counts the frees the pool accepted |
| KeyStore.Store.SetMaterial | tl_802154_sdk/ieee802154/mac/includes/mac_security.h:169-173 | a key gets the given nodes as its three lists, whoever else has them; only their links are written |
| KeyStore.Store.KeyFree | tl_802154_sdk/ieee802154/mac/mac_pib.c:160-179 | the three releases and the key itself, with the number of nodes the pools took back, shared or not |
| KeyStore.Store.SetKey | tl_802154_sdk/ieee802154/mac/mac_pib.c:269-293 | sequence semantics of set on the key table; the evicted key is released |
| KeyStore.Store.DelKey | tl_802154_sdk/ieee802154/mac/mac_pib.c:461-475 | sequence semantics of delete; the removed key is released |
| KeyMaterial.StepTidy | tl_802154_sdk/ieee802154/mac/mac_pib.c:99-179 | every operation of a careful caller keeps nodes unshared and counts right |
| KeyMaterial.RunConserved | tl_802154_sdk/ieee802154/mac/mac_pib.c:99-179 | after any run of alloc, describe, set, replace and delete by a careful caller, free + held + listed = capacity in the four pools behind the key table |
| KeyMaterial.NewStoreTidy | tl_802154_sdk/ieee802154/mac/mac_pib.c:75-95 | a new store is tidy, with all nodes vacant |
| KeyMaterial.LifeOfAKey | tl_802154_sdk/ieee802154/mac/mac_pib.c:99-179 | from a new store, a key is allocated, described, put in the table and deleted: balanced, and every node vacant again |
| KeyMaterial.CoordinatorKeysShare | tl_802154_sdk/demo/associate_coor/app.c:199-219 | two keys built with common lookup and usage nodes: freeing the first returns four nodes, the second one of the four it records |
| KeyMaterial.FreeTwoCoordinatorKeys | tl_802154_sdk/demo/associate_coor/app.c:199-219 | the same, run through the pools |
| MacPib.Pib.AttrSet | tl_802154_sdk/ieee802154/mac/mac_pib.c:247-361 | scalar requests in any state, table requests while the tables are in order: one table with its count, one row, the channel byte, or the radio's power changes as specified and nothing else; afterwards the tables are in order if and only if the record says so |
| MacPib.Pib.SetBytes | tl_802154_sdk/ieee802154/mac/mac_pib.c:347-360 | a scalar set changes the record as specified, in any state; what it leaves in the count bytes are the tables' counts |
| MacPib.Pib.InOrderIsValid | tl_802154_sdk/ieee802154/mac/mac_pib.c:269-360 | the tables can serve requests if and only if the record's pointers and counts are right |
| MacPib.Pib.AttrGet | tl_802154_sdk/ieee802154/mac/mac_pib.c:377-442 | table entries, row bytes and reported length, live entry counts, the channel byte, and failure out of range |
| MacPib.Pib.SecAttrDel | tl_802154_sdk/ieee802154/mac/mac_pib.c:456-510 | delete on one table, failure for any other attribute |
| MacPib.Pib.Conserved | tl_802154_sdk/ieee802154/mac/mac_pib.c:99-157 | conservation in the device and security-level pools |
| PibFields.RowsDisjoint | tl_802154_sdk/ieee802154/mac/mac_pib.c:181-231 | attribute rows cover disjoint bytes of the record |
| PibFields.RowsAreIndependent | tl_802154_sdk/ieee802154/mac/mac_pib.c:247-361 | with the tables in order for table requests, what a request makes of a row depends on that row alone |
| PibFields.OrderKept | tl_802154_sdk/ieee802154/mac/mac_pib.c:269-360 | a request keeps the tables' pointers and counts in the record right if and only if it is no harmful scalar set |
| PibFields.OrdinaryRunGoverned | tl_802154_sdk/ieee802154/mac/mac_pib.c:269-360 | in a run that leaves the raw identifiers alone every table request finds the tables in order |
| PibFields.OneRequest | tl_802154_sdk/ieee802154/mac/mac_pib.c:269-360 | one request, a table request finding the tables in order, keeps a value readable if and only if it does not disturb it |
| PibFields.SetThenGet | tl_802154_sdk/ieee802154/mac/mac_pib.c:269-360 | full-length set, then any run of scalar and table requests whose table requests find the tables in order: the value is read back at every point if and only if none disturbs it |
| PibFields.OrdinarySetThenGet | tl_802154_sdk/ieee802154/mac/mac_pib.c:269-360 | from tables in order, an attribute below the transmit power is read back after any run that leaves it and the raw identifiers alone |
| PibFields.OrdinaryAttribute | tl_802154_sdk/ieee802154/mac/mac_pib.c:347-360 | attributes below the transmit power are disturbed only through their own identifier |
| PibFields.TablesSurvive | tl_802154_sdk/ieee802154/mac/mac_pib.c:347-360 | a scalar set keeps the tables' pointers and counts if and only if it is not harmful |
| PibFields.RawIdentifiersHarm | tl_802154_sdk/ieee802154/mac/mac_pib.c:347-360 | each of the nine raw identifiers has a harmful set on every record |
| PibFields.GetReadsWhatSetWrote | tl_802154_sdk/ieee802154/mac/mac_pib.c:435-441 | get and set use one row if and only if the identifier is below the key table |
| PibFields.PowerNeverWritten | tl_802154_sdk/ieee802154/mac/mac_pib.c:252-257 | no run whose table requests find the tables in order writes the record's transmit power |
| PibFields.PowerReadBack | tl_802154_sdk/ieee802154/mac/mac_pib.c:252-257 | in such a run get returns a power that was set if and only if the record held it from the start |
| PibFields.PibRecord.SetScalar | tl_802154_sdk/ieee802154/mac/mac_pib.c:252-265 | which bytes of the record a scalar set writes, per kind of identifier; the power goes to the radio, cut at 11 |
| PibFields.EffectWritesRight | tl_802154_sdk/ieee802154/mac/mac_pib.c:347-360 | the same of the effect that the run results are about |
| PibFields.ChannelReadBack | tl_802154_sdk/ieee802154/mac/mac_pib.c:258-260 | a channel set writes one byte, which any run without another channel set keeps |
| PibFields.AddressPlaces | tl_802154_sdk/ieee802154/mac/includes/tl_zb_mac_pib.h:135-194 | where PAN identifier, addresses and beacon payload lie in the record |
| PibFields.PointerPlaces | tl_802154_sdk/ieee802154/mac/includes/tl_zb_mac_pib.h:135-194 | where the tables' list pointers lie in the record |
| PibFields.PibRecord.GetScalar | tl_802154_sdk/ieee802154/mac/mac_pib.c:435-441 | the row's bytes and reported length |
| Association.AssociateAgrees | tl_802154_sdk/demo/associate_coor/app.c:165-222 | an association keeps all tables in agreement; it is refused exactly when 16 other devices have entries |
| Association.RunAgrees | tl_802154_sdk/demo/associate_coor/app.c:308-336 | agreement in every reachable state; earlier entries never change |
| Association.AnswerIsFinalPosition | tl_802154_sdk/demo/associate_coor/app.c:165-222 | every answer is 0x3300 plus the device's position in the final table |
| Association.SameAddressIffSameDevice | tl_802154_sdk/demo/associate_coor/app.c:165-222 | two answers of a run are equal if and only if the devices are |
| Association.AddressedInTime | tl_802154_sdk/demo/associate_coor/app.c:260-296 | whatever associations interleave, a device is addressed within its distance in sends |
| Association.EveryDeviceServed | tl_802154_sdk/demo/associate_coor/app.c:260-296 | any 16 sends after any run address every associated device at its own short address |
| Association.EachExactlyOnce | tl_802154_sdk/demo/associate_coor/app.c:260-296 | n sends to n devices address each exactly once, at its own address |
| Coordinator.App.FindDevice | tl_802154_sdk/demo/associate_coor/app.c:170-183 | the search returns the first entry with the address, or none |
| Coordinator.App.AddKeyMaterial | tl_802154_sdk/demo/associate_coor/app.c:165-222 | known device keeps entry and address, new one is appended to device and key tables with the common nodes and its own; its descriptor is fresh; full table leaves everything as it was |
| Coordinator.App.AssociateInd | tl_802154_sdk/demo/associate_coor/app.c:308-336 | the callback is one association step, with the specified response and the send timer restarted; refusal changes no table and sends nothing |
| Coordinator.App.SendDataIndirect | tl_802154_sdk/demo/associate_coor/app.c:260-296 | destination, options, security fields and counter payload of the frame; the counter wraps at 32 bits and the index makes one send step |
| Clock.ExceedExact | tl_802154_sdk/platform/chip_8258/timer.h:99-102 | the timeout test is right if and only if no whole wrap was missed with a remainder inside the span |
| Clock.SpanExact | tl_802154_sdk/platform/chip_8258/timer.h:99-102 | the timeout test is right at every moment of the first wrap if and only if the span is below 2^28 microseconds |
| Clock.PollIsExact | tl_802154_sdk/platform/chip_8258/timer.h:99-102 | in a polling loop every test is exact and the number of tests is bounded by the span |
| Clock.TurnaroundKept | tl_802154_sdk/ieee802154/mac/mac_phy.c:601-604 | for any ticks and any lateness the acknowledgment starts no earlier than the turnaround time, and without a missed wrap less than 1 us late |
| Rssi.AccBetween | tl_802154_sdk/ieee802154/mac/mac_phy.c:152-163 | for any stream, least * count <= sum <= greatest * count, compactions included |
| Rssi.AccFits | tl_802154_sdk/ieee802154/mac/mac_phy.c:152-163 | -128 * count <= sum <= 127 * count, and the sum never leaves 32 bits |
| Rssi.ShortScanExact | tl_802154_sdk/ieee802154/mac/mac_phy.c:152-163 | without compaction sum and count are those of the samples |
| Rssi.EnergyDetect.Detect | tl_802154_sdk/ieee802154/mac/mac_phy.c:152-163 | one more sample, in signed 32-bit variables; at 0xFFFFFE samples the truncated mean stands for all of them |
| Rssi.EnergyDetect.Stop | tl_802154_sdk/ieee802154/mac/mac_phy.c:362-375 | the truncated mean: it fits 8 bits and lies between least and greatest sample; 0 without samples |
| Rssi.ThresholdExact | tl_802154_sdk/ieee802154/mac/mac_phy.c:399-401 | what comparing the truncated mean with a threshold says about the exact sum, both signs |
| Rssi.PerformCca | tl_802154_sdk/ieee802154/mac/mac_phy.c:382-404 | at most 2049 samples, until the first reading past 128 us; busy if and only if the mean exceeds the threshold or TX is busy |
| AckFrame.DataRequestRecognised | tl_802154_sdk/ieee802154/mac/mac_phy.c:571-582 | a frame laid out by the standard is recognised by type and command byte, secured or not, whatever follows |
| AckFrame.DecidedByFrame | tl_802154_sdk/ieee802154/mac/mac_phy.c:571-582 | bytes behind a length cannot matter if and only if the frame is no command or has its command byte before it |
| RadioState.AckDecidedByPacket | tl_802154_sdk/ieee802154/mac/mac_phy.c:571-596 | the acknowledgment of a packet is the same over every buffer if and only if nothing is pending or the packet is self-contained |
| RadioState.EarlierFrameMatters | tl_802154_sdk/ieee802154/mac/mac_phy.c:533-596 | over runs that drop a good frame by the filter and then answer a packet: which frame was dropped is irrelevant if and only if nothing is pending or the packet is self-contained |
| RadioState.ShortCommandNotSelfContained | tl_802154_sdk/ieee802154/mac/mac_phy.c:571-582 | under the standard's header lengths there is a good packet that is not |
| AckFrame.AckReadsBack | tl_802154_sdk/ieee802154/mac/mac_phy.c:567-596 | read back as a frame: type acknowledgment, the sequence number received, pending bit as specified, no other bit |
| AckFrame.AckRule | tl_802154_sdk/ieee802154/mac/mac_phy.c:567-596 | the four bytes sent, by the received frame's subfields: pending bit if and only if data is pending for a command 4 with a 16-bit or 64-bit source |
| AckFrame.FieldsReadBack | tl_802154_sdk/ieee802154/mac/includes/mac_trx_api.h:72-104 | every subfield of a frame control field is read from where the standard puts it |
| AckFrame.StandardHeader | tl_802154_sdk/ieee802154/mac/includes/mac_trx_api.h:238 | header length by address modes |
| AckFrame.StandardAuxLengths | tl_802154_sdk/ieee802154/mac/includes/mac_security.h:132 | auxiliary header length by key identifier mode |
| AckFrame.PlainDataRequest | tl_802154_sdk/ieee802154/mac/mac_phy.c:567-596 | the acknowledgment of a data request given byte by byte |
| AckFrame.SecuredDataRequest | tl_802154_sdk/ieee802154/mac/mac_phy.c:575-582 | the same with an auxiliary security header |
| Radio.Driver.FillAck | tl_802154_sdk/ieee802154/mac/mac_phy.c:567-596 | the bytes for the air are those of the specification whatever an earlier acknowledgment left |
| Radio.Driver.SendAck | tl_802154_sdk/ieee802154/mac/mac_phy.c:567-622 | one acknowledgment on air, not before the turnaround time and less than 1 us after it is possible, then RX mode and interrupt mask again |
| Radio.Driver.AwaitTxDone | tl_802154_sdk/ieee802154/mac/mac_phy.c:614-616 | the wait ends at the first poll with TX done or past a millisecond |
| Radio.Driver.RxIrqHandler | tl_802154_sdk/ieee802154/mac/mac_phy.c:475-630 | on driver variables and packet bytes: when a packet is taken, which counter counts, which buffer is cleared, what is acknowledged; non-busy paths leave RX DMA on, mask set, DMA target in step, RX mode if it was |
| RadioState.OutcomeRule | tl_802154_sdk/platform/chip_8258/rf_drv.h:219-220 | bad, filtered, without buffer or delivered, by the bytes of the packet and the transmitter's state |
| RadioState.InterruptDecides | tl_802154_sdk/ieee802154/mac/mac_phy.c:509-556 | the state machine of the run results takes and counts packets by that rule |
| RadioState.InterruptDoes | tl_802154_sdk/ieee802154/mac/mac_phy.c:539-622 | and clears, switches and acknowledges by the bytes |
| Radio.Driver.SetRxBuf | tl_802154_sdk/ieee802154/mac/mac_phy.c:206-211 | driver and DMA move to the cleared next buffer together |
| Radio.Driver.DmaReceive | tl_802154_sdk/ieee802154/mac/mac_phy.c:206-211 | an arriving packet lands in the DMA target and nowhere else |
| Radio.Driver.ReleaseBuf | tl_802154_sdk/ieee802154/mac/mac_phy.c:561-564 | a released buffer becomes free, nothing else changes |
| Radio.Driver.StartTx | tl_802154_sdk/ieee802154/mac/mac_phy.c:418-425 | driver and hardware in TX and busy, buffers untouched |
| Radio.Driver.TxIrqHandler | tl_802154_sdk/ieee802154/mac/mac_phy.c:643-653 | busy flag cleared, driver and hardware in RX |
| Radio.Driver.SetTrxState | tl_802154_sdk/ieee802154/mac/mac_phy.c:236-261 | driver state and hardware mode change together |
| RadioState.RxIrqSound | tl_802154_sdk/ieee802154/mac/mac_phy.c:475-630 | an interrupt keeps the whole invariant, on every outcome |
| RadioState.RunSound | tl_802154_sdk/ieee802154/mac/mac_phy.c:475-653 | so does every run of arrivals, interrupts, releases and state changes |
| RadioState.HandedTracked | tl_802154_sdk/ieee802154/mac/mac_phy.c:545-564 | over any run, the buffers the MAC has are those delivered to it and not yet released |
| RadioState.BuffersConserved | tl_802154_sdk/ieee802154/mac/mac_phy.c:545-564 | delivered and unreleased + free + the one DMA buffer = all buffers, and the DMA buffer is none of the first |
| RadioState.HandedIntact | tl_802154_sdk/ieee802154/mac/mac_phy.c:561-564 | a buffer with the MAC is never written before its release |
| RadioState.DeliveredStays | tl_802154_sdk/ieee802154/mac/mac_phy.c:545-630 | over any run, a delivered frame reads as it was checked until its buffer is released |
| RadioState.NeverTwice | tl_802154_sdk/ieee802154/mac/mac_phy.c:509-516 | without a new arrival no second delivery is possible |
| RadioState.AgreementKept | tl_802154_sdk/ieee802154/mac/mac_phy.c:539-551 | driver state and hardware mode keep agreeing if and only if no frame is answered outside RX |
| RadioState.LogGrows | tl_802154_sdk/ieee802154/mac/mac_phy.c:483-556 | a run adds the outcomes of its handled interrupts, in order, one each |
| RadioState.RunAccounts | tl_802154_sdk/ieee802154/mac/mac_phy.c:483-556 | handled interrupts = bad + filtered + no buffer + delivered; deliveries do not exceed arrivals; exactly the acknowledgments owed are sent |
| RadioState.CountersConserved | tl_802154_sdk/ieee802154/mac/mac_phy.c:483-556 | the three counters, in their own widths, still determine filtered + delivered modulo 256 |
| DevScan.Scanner.ActiveScan | tl_802154_sdk/demo/associate_dev/app.c:136-146 | a new scan forgets all stored beacons |
| DevScan.Scanner.BeaconInd | tl_802154_sdk/demo/associate_dev/app.c:365-387 | the table holds the first 15 permitted beacons since the scan start |
| DevScan.PermittedMembers | tl_802154_sdk/demo/associate_dev/app.c:365-375 | collected are exactly the beacons permitting association heard since the last scan start |
| DevScan.Scanner.StartAssociate | tl_802154_sdk/demo/associate_dev/app.c:166-206 | the request has channel, PAN and address of the first of the strongest beacons among the first 15; eight address bytes for mode 3, the first two for any other |
| DevScan.Scanner.ScanConfirm | tl_802154_sdk/demo/associate_dev/app.c:148-163 | association starts exactly when some PAN was stored, whatever the scan status |
| DevScan.ChosenWasHeard | tl_802154_sdk/demo/associate_dev/app.c:166-206 | channel, PAN and address in the request are those of a beacon permitted in this scan, and no other request is possible |
| DevScan.ChosenIsStrongestHeard | tl_802154_sdk/demo/associate_dev/app.c:365-387 | the choice is strongest of all heard if and only if no beacon past the 15th beats all stored ones |

## Left out

- TnMem.Pool.Alloc: the bodies behind `tn_list.h` and `tn_mm.h` are not in the repository; they are modelled from their declarations and use, with a pool kept as sequence columns, so slot memory is not raw bytes.
- KeyStore.Store.SetMaterial: `mac_keyDesc_set` is not in the repository; it is modelled as building a new list of distinct nodes, in the order given.
- KeyMaterial.RunConserved: is about callers that give each node to one key; what sharing does is `RawLists.BothReturnedExactlyWhenApart`.
- MacPib.Pib.AttrSet: assumes the caller holds the node it sets and that a scalar set names a row of the attribute table; a table request that finds a table's pointer or count overwritten is excluded, since it can read and write anywhere.
- MacPib.Pib.SetBytes: the identifiers that name no row, as for PibFields.PibRecord.SetScalar.
- MacPib.Pib.SecAttrDel: a delete from a table whose pointer or count was overwritten, as for MacPib.Pib.AttrSet.
- PibFields.SetThenGet: says nothing of runs in which a table request follows a harmful scalar set.
- PibFields.PibRecord.SetScalar: a set through 0x6E, 0x6F, 0x70 or 0x7F, which the code answers from memory past its table, is excluded.
- PibFields.PibRecord.GetScalar: a get of a security scalar, which the code answers from memory past its table, is excluded; so is a value buffer shorter than its stated length.
- MacPib.Pib.AttrGet: the same identifiers as PibFields.PibRecord.GetScalar.
- MacPib.Pib.Conserved: pools are initialised once; the warm-reset path of `mac_secMaterial_Init` and non-volatile storage are not part of this model.
- FlashDriver.Mspi.WaitDone: the poll limit of 10,000,000 is assumed to exceed the chip's latency.
- FlashDriver.Mspi.WritePage: addresses outside the 24-bit space have only the transaction-level contract; flash protection, voltage checks and the watchdog are left out.
- Coordinator.App.AddKeyMaterial: the application's tables are SecTables of their own and not those of a MacPib.Pib, with the entry count beside the list; a key entry names the nodes given to its sublists; their links are the subject of KeyStore and KeyMaterial, not repeated here. Memory exhaustion halts are unreachable and proved so.
- Coordinator.App.SendDataIndirect: the buffer the payload is copied through, and the queueing of the frame.
- Radio.Driver.RxIrqHandler: the 8258 packet layout is modelled. Filter, buffer allocator and indirect queue are nondeterministic inputs, header lengths a parameter within the limits of the standard, and the hardware is assumed to write a DMA length of at most 140 into a buffer. The coordinator and router build is modelled.
- Radio.Driver.SendAck: the delay primitive waits exactly its argument; a longer wait only delays the start.
- Radio.Driver.SetTrxState: gain mode, power amplifier pins, and the wait after a switch to TX.
- Rssi.EnergyDetect.Stop: the mapping of the mean to a link quality value.
- DevScan.Scanner.StartAssociate: the PIB writes of the coordinator address and PAN identifier, and the capability bits of the request.
- CSMA back-off, transmit queueing, MLME primitives, timers, OTA, AES and the application protocols.
- B91 and 826x radio register layouts, GPIO, ADC, UART, USB and power management.
