# Verified model of a Telink Zigbee smoke sensor

This project models the parts of the firmware and of its host tools where a mistake costs a
device or a false alarm, and proves what they promise:

- **Firmware update.** NOR flash is a sequence of bytes; erasing a sector sets it to 0xFF and
  programming can only clear bits (`NorFlash`). On it run the bootloader's install pass, a machine
  of single flash commands with power loss, torn erases and pages that store anything
  (`BootInstall`), with what all its runs keep (`BootSafe`), the code that makes its passes
  (`BootPass`) and what an unfit header does to it (`BootWipe`); and the two stop-and-wait transfers
  that fill the spare slot: the bootloader's UART upgrade (`UartUpgrade`) and the HCI handler with
  its A/B handover (`HciOta`, `HciTransfer`, `HciOutcome`, `HciDelivery`, `HciBoot`, `HciHandover`,
  `HciBootable`, `HciHandler`). `UartWire` has the messages on the wire.
  `ImagePatch` is the tool that makes an image bootable; `EndToEnd` joins the chain,
  the file that was patched is the file that runs; `UartCampaign` follows a device through any
  number of uploads and installs.
- **Host programmer and line codes.** `Programmer` is the erase-before-write command list,
  `AnyStart` what becomes of a file that starts anywhere,
  `TlsrLine` a line that may lose or refuse commands, `TlsrArrival` what success then means, and
  `TlsrPgm` the write loop and the chunked read over it; `Crc16` is the table-driven CRC against
  its bitwise definition; `SwireCode` is the single-wire code; `UartFrame` the serial frames of the
  bootloader.
- **HCI packet builder.** `ZclPacket` and `ZclReport` are the commands built in two scans, one to
  size a buffer and one to fill it.
- **Sensor.** `Debounce` relates the saturating counters to a detector over whole windows of
  samples; `Sensor` has the handlers that share the ZoneStatus word, the battery check, the on/off
  commands and the gate to low power, `ZoneStatus` what the word then says over any history.

Code that changes state in the source is a class or a method here, with loops where the source
has loops, proved against a specification function; the theorems are about the specification.

Taken as parameters: the byte step of `xcrc32` (every result holds for any step), the slot
addresses and sizes (sector aligned and apart, as `drv_nv.h` lays them out), the offset of the
flag word (8 or 32), `zcl_getAttrSize`, `zcl_analogDataType` and `zcl_getDataTypeLen`, the answers
of the programmer, samples, ADC readings and whether the device is in a network.

## Findings

The code does not keep the following; each is a lemma with the exact condition or a witness.

- The final check of an HCI transfer reads the trailer at `total - 4` of the address space
  (zbhciCmdProcess.c:1236), so for the slot at 0x40000 it compares with whatever the running image
  has there, and refuses images that are in order: `HciOutcome.LocalAcceptedIff`,
  `HciDelivery.SealedTakenIff`, `HciDelivery.GoodImageRefused`.
- The handover decides which flag to clear after it has written the new one
  (zbhciCmdProcess.c:1097-1101), so a device running from 0x40000 clears the flag it has just set:
  `HciHandover.HandoverSwitchesIff`, `HciHandover.StaysOnB`.
- A block response outside a transfer is still handled (zbhciCmdProcess.c:1166-1248). With a
  cleared record it mostly erases the first sector of the chip, which disables a device that runs
  from 0 unless the other slot is sound: `HciOutcome.StrayResponse`, `HciBootable.StrayBootsIff`.
  After a refused oversize start, which leaves its slot and size in the record (1128-1132), blocks
  are programmed one behind the other, up to the size announced, into the spare slot and on into
  whatever lies behind it, the running image included, and the clean-up erases as far:
  `HciOutcome.OversizeLeaves`, `HciOutcome.OversizeResponse`, `HciOutcome.OversizeThenStray`,
  `HciBootable.StrayReachesRunning`. `HciBootable.OutsideIff` says exactly when the chip can still
  boot. These are the only records there are outside a transfer: `HciOta.SaneHandle`.
- A block past the announced end is written before its length is judged (1228-1246), and its
  clean-up may erase one sector more than the slot has: `HciBootable.OverrunErasesRunning`. Of a
  remote file only the whole flag word is refused (1208-1226), while the chip looks at its first
  byte: `HciBootable.RemoteFlagTakesOver`. `HciBootable.InTransferIff` is exact about both.
- The test of the flag byte of a local image includes a block that ends right before it (1198), and
  judges it by whatever lies behind it in the receive buffer: `HciOutcome.ByteBehindDecides`.
- The wipe after an install is as long as the header says, fitting or not (bootloader.c:198-200):
  `BootWipe.RejectedKeepsAppIff`, `BootWipe.OutsideKeptIff`.
- A start request is accepted while an install is pending (bootloader.c:388-412), with half of the
  application copied: `UartCampaign.PendingInstall`, and exactly when that is fatal,
  `UartCampaign.StartWhilePending`.
- A start request stops the install check (bootloader.c:397-398), and a transfer that is dropped does
  not arm it again, so that nothing but a new upload or a power cycle starts the application:
  `UartUpgrade.DroppedIsInert`, `UartUpgrade.InertForGood`.
- A block the bootloader refuses has already cancelled the retry timer (bootloader.c:431-433 and
  483-485), and the transfer stalls: `UartUpgrade.StallsIffRefused`, `UartUpgrade.StallStays`.
- A first block that ends at or before the flag byte leaves the flag in place during the transfer
  (bootloader.c:454-456): `UartUpgrade.SessionSafe` with the exact condition for blocks of any
  length, `UartUpgrade.ShortFirstBlock`.
- The retry loops of the programmer end after one pass (TlsrPgm.py:729-743 and 752-767), so a
  refused command is dropped and success may still be reported: `TlsrLine.NeverRetried`,
  `TlsrArrival.ArrivesIff`, `TlsrArrival.FileArrivesIff`, `TlsrArrival.RefusedEraseIff`, with
  `TlsrLine.SuccessWithoutTheByte` as the witness.
- A page that starts in one sector and ends in the next is written before the next sector is erased
  (TlsrPgm.py:723-770): `AnyStart.AnyStartByte`, `AnyStart.AnyStartIff`.
- A damaged length field can pass the frame check: `UartFrame.LengthDamageIff`,
  `UartFrame.LengthDamagePasses`.
- The first scan of a report configuration skips one byte more than the second one for discrete
  types (zbhci_zclHandler.c:659-661): `ZclReport.InStepIffAnalog`, `ZclReport.SafeToExtendIff`,
  `ZclReport.SizedShort`.
- A counter that leaves its end and comes back reports again, which the toggle action turns into
  an extra toggle: `ZoneStatus.TogglesFollowIffEven`, `ZoneStatus.StraySampleReturns`.

## Model

| member | source | states |
|---|---|---|
| `NorFlash.Flash.WriteWithCheck` | tl_zigbee_sdk/proj/drivers/drv_flash.c:146-177 | Reports success exactly if flash holds the data afterwards, whatever the chip stored; touches no byte outside the addressed range. |
| `NorFlash.EraseRange` | tl_zigbee_sdk/apps/bootLoader/bootloader.c:410-412 | The erase loop gives one erase for each of the `n` sectors, in order, and leaves flash as these commands leave it. |
| `Crc32.FoldConcat` | tl_zigbee_sdk/proj/common/utility.c:83-92 | The CRC over two pieces is the CRC of the second continued from that of the first: every chunked computation agrees with one pass. |
| `Crc32.Xcrc32` | tl_zigbee_sdk/proj/common/utility.c:83-92 | The loop computes the fold of the byte step over the whole buffer from the value it is given. |
| `Firmware.AcceptedIff` | tl_zigbee_sdk/apps/bootLoader/bootloader.c:133-164 | Flag word, size limit and CRC, as the boot code reads them from flash, accept a slot if and only if its contents are a bootable image; for a header size below 4, if and only if it has its flag and the word that ends there is 0xFFFFFFFF. |
| `BootSafe.ChecksIff` | tl_zigbee_sdk/apps/bootLoader/bootloader.c:133-164 | The checks lead to an install exactly if the slot holds a bootable image, to the wipe exactly if it has its flag but no such image, and past both exactly if it has no flag. |
| `BootSafe.CrashSafe` | tl_zigbee_sdk/apps/bootLoader/bootloader.c:129-223 | For a flagged image with a good CRC, over any run of the machine with power losses, torn erases (of the sector with the flag too, if what is left of it is unflagged, or refused with a header whose wipe stays in the slot), pages that store anything, resets and reboots: at every point the spare slot still holds the whole image or the load slot holds all of it; the flag is gone only when the copy is complete; the application is entered only from a complete copy; "no application" is never reached; and no byte outside the two slots ever changes. |
| `BootSafe.SafeStep` | tl_zigbee_sdk/apps/bootLoader/bootloader.c:129-223 | Every single step of code, failure or power loss keeps the install invariant. |
| `BootSafe.HarmlessIff` | tl_zigbee_sdk/apps/bootLoader/bootloader.c:133-200 | What a spare slot may hold without doing harm, as far as torn erases are concerned: no flag, or no bootable image and a header whose wipe stays in the slot. |
| `BootSafe.RejectedKeepsApp` | tl_zigbee_sdk/apps/bootLoader/bootloader.c:133-222 | A spare slot that does not hold a bootable image costs the load slot not a byte whatever fails, and the application is entered exactly if it was bootable before: as long as the header does not make the erase loop wrap round the chip to the load slot. |
| `BootWipe.RejectedKeepsAppIff` | tl_zigbee_sdk/apps/bootLoader/bootloader.c:194-200 | That condition is exact: for a slot without a bootable image, and a load slot whose first sector is not blank anyway, no run changes the load slot if and only if there is no flag or the wipe its header asks for stops before it comes round to the load slot. |
| `BootSafe.OutsideKept` | tl_zigbee_sdk/apps/bootLoader/bootloader.c:129-223 | Over any run with any failures, from any flash whose flagged header keeps the wipe in the slot, flash outside the two slots does not change. |
| `BootSafe.ContainedIff` | tl_zigbee_sdk/apps/bootLoader/bootloader.c:198-200 | The wipe stays in the slot exactly for sizes up to the slot size and, because the 32-bit sum overflows, for those above 0xFFFFF000. |
| `BootWipe.OutsideKeptIff` | tl_zigbee_sdk/apps/bootLoader/bootloader.c:198-200 | As long as the sector behind the spare slot, which may be the first of the chip, lies outside the load slot and is not blank anyway: no run changes flash outside the slots if and only if the spare slot has no flag or its header gives such a size. |
| `BootSafe.ClearHides` | tl_zigbee_sdk/apps/bootLoader/bootloader.c:194-195 | Clearing the flag byte, whatever the chip really stores there, either leaves flash as it was or hides the slot, whatever image is in it. |
| `BootSafe.PageReadBack` | tl_zigbee_sdk/apps/bootLoader/bootloader.c:178-188 | A page that reads back equal in both slots extends the verified copy by exactly that page of the image. |
| `BootPass.PassIsRun` | tl_zigbee_sdk/apps/bootLoader/bootloader.c:129-223 | An uninterrupted pass of the code is a run of the machine, so the theorems about runs apply to it. |
| `BootPass.ChunkedCrcMatches` | tl_zigbee_sdk/apps/bootLoader/bootloader.c:143-163 | The loop over 256-byte chunks accepts exactly if one pass over the slot up to the trailer gives the trailer, small sizes included. |
| `BootPass.WriteReadBack` | tl_zigbee_sdk/apps/bootLoader/bootloader.c:178-188 | Says whether the page now reads the same in both slots, having changed no byte outside that page of the load slot. |
| `BootPass.CopyPage` | tl_zigbee_sdk/apps/bootLoader/bootloader.c:174-188 | One turn of the copy loop takes exactly the steps of the machine for that page, ending in a reset if the page does not read back. |
| `BootPass.CopyImage` | tl_zigbee_sdk/apps/bootLoader/bootloader.c:173-191 | Without a reset the load slot holds the image on all its bytes, and the spare slot is as it was. |
| `BootPass.WipeSpare` | tl_zigbee_sdk/apps/bootLoader/bootloader.c:198-200 | The erase loop erases as many sectors as the header asks for, at addresses that wrap at the end of the chip. |
| `BootPass.RetireSpare` | tl_zigbee_sdk/apps/bootLoader/bootloader.c:194-200 | Clears the flag first and erases afterwards; if the header keeps the wipe in the slot, the sectors it covers end up blank and nothing outside the slot changes. |
| `BootPass.Inspect` | tl_zigbee_sdk/apps/bootLoader/bootloader.c:133-164 | Decides for an install exactly if the slot holds a bootable image, otherwise for the wipe exactly if it has its flag. |
| `BootPass.InstallImage` | tl_zigbee_sdk/apps/bootLoader/bootloader.c:166-205 | Unless it resets, the load slot ends up with the bytes the spare slot had and the spare sectors are blank; on a sound chip it never resets. |
| `BootPass.BootloaderWithOtaCheck` | tl_zigbee_sdk/apps/bootLoader/bootloader.c:129-223 | The whole pass is a pass of the machine; on a sound chip a bootable image is delivered byte for byte, a slot without one leaves the load slot as it was unless its wipe comes round to it, an unflagged slot leaves flash alone, the outcome is launch exactly if the load slot is flagged then, and flash outside the slots is unchanged if the header keeps the wipe in its slot. |
| `UartUpgrade.SessionSafe` | tl_zigbee_sdk/apps/bootLoader/bootloader.c:384-494 | After any events of a session in which the host serves one image in pieces of any length and the network loses, repeats and reorders: during a transfer the slot holds exactly the received prefix, and it counts as bootable exactly if the first block ended at or before the flag byte, the flag word has come since and the image has it; when the install check is armed the slot holds the whole image with 0x4B programmed over its flag byte. |
| `UartUpgrade.SessionHidden` | tl_zigbee_sdk/apps/bootLoader/bootloader.c:384-494 | If every first block reaches past the flag byte, as the request asks, the slot is at no point of a transfer bootable. |
| `UartUpgrade.FinalizedIs` | tl_zigbee_sdk/apps/bootLoader/bootloader.c:462-465 | What is in the slot then is the image with its flag set exactly if the flag byte was disabled first or can be programmed over what the image has there; an image that has the flag set arrives unchanged. |
| `UartUpgrade.FaithfulHandle` | tl_zigbee_sdk/apps/bootLoader/bootloader.c:384-494 | Every event keeps the transfer invariant, whatever the block lengths: prefix received, flag disabled unless the first block stopped short of it, the rest of the erased area still 0xFF. |
| `UartUpgrade.FlagCompletes` | tl_zigbee_sdk/apps/bootLoader/bootloader.c:462-465 | Programming 0x4B over the flag byte of a complete transfer turns the slot into the finished image. |
| `UartUpgrade.CutBeforeFlag` | tl_zigbee_sdk/apps/bootLoader/bootloader.c:458-465 | Power failing right after a block is stored leaves the slot bootable exactly if the first block had ended at or before the flag byte and the flag word of the image is in. |
| `UartUpgrade.CutInErase` | tl_zigbee_sdk/apps/bootLoader/bootloader.c:409-412 | Power failing anywhere in the erase loop, from the first sector on, leaves the slot not bootable. |
| `UartUpgrade.SuccessIsComplete` | tl_zigbee_sdk/apps/bootLoader/bootloader.c:462-470 | Success is reported for exactly the accepted block that ends at the end of the image, and then the slot is complete. |
| `UartUpgrade.RequestedIsServed` | tl_zigbee_sdk/apps/bootLoader/bootloader.c:334-353 | The block the device asks for is a piece of the image, is accepted when it comes, and reaches past the flag byte if it is the first. |
| `UartUpgrade.UploadCompletes` | tl_zigbee_sdk/apps/bootLoader/bootloader.c:384-494 | For every image that fits there is such a session, each request answered, that ends with the install check armed. |
| `UartUpgrade.ShortFirstBlock` | tl_zigbee_sdk/apps/bootLoader/bootloader.c:453-456 | The shortest case: with a first block that ends at or before the flag byte and a second one past the flag word, the slot counts as bootable in mid-transfer exactly if the image carries the flag word. |
| `UartUpgrade.StallsIffRefused` | tl_zigbee_sdk/apps/bootLoader/bootloader.c:429-488 | During a transfer a block response leaves the retry timer off exactly if it reports success but is refused for its offset or length. |
| `UartUpgrade.StallStays` | tl_zigbee_sdk/apps/bootLoader/bootloader.c:384-428 | From a stall nothing but another block response leads on; a new start request is refused as in progress. |
| `UartUpgrade.StartAnswers` | tl_zigbee_sdk/apps/bootLoader/bootloader.c:388-428 | What the answer to a start request means: success that a transfer of this size has begun, at offset 0, with its area erased and nothing else changed in flash; in progress and oversize exactly when they should, with nothing changed. |
| `UartUpgrade.BlockAnswers` | tl_zigbee_sdk/apps/bootLoader/bootloader.c:429-494 | What the answer to a block means, status by status, each exactly: stored and more wanted, refused, complete, past the end, failed; with the size and the place reported and the record that is left. |
| `UartUpgrade.UnansweredEnds` | tl_zigbee_sdk/apps/bootLoader/bootloader.c:364-382 | Each of five ticks without an answer asks for the next 40 bytes or what is left and is counted; the next one reports the timeout, clears the record and leaves flash alone. |
| `UartUpgrade.TimesOut` | tl_zigbee_sdk/apps/bootLoader/bootloader.c:364-382 | So a transfer whose host falls silent is over after six ticks at the most. |
| `UartUpgrade.UnarmedHandle` | tl_zigbee_sdk/apps/bootLoader/bootloader.c:384-494 | Every event keeps it that the install check is not armed during a transfer. |
| `UartUpgrade.DroppedIsInert` | tl_zigbee_sdk/apps/bootLoader/bootloader.c:384-494 | A transfer that ends without success leaves the record cleared and the install check unarmed, since the start request stopped it. |
| `UartUpgrade.InertChangesIff` | tl_zigbee_sdk/apps/bootLoader/bootloader.c:384-428 | An inert device is changed by an event if and only if that is a start request for a size that fits. |
| `UartUpgrade.InertForGood` | tl_zigbee_sdk/apps/bootLoader/bootloader.c:384-494 | So over any further events without such a request nothing is changed and the install check, which alone starts the application, stays unarmed. |
| `UartUpgrade.Bootloader.Upgrade` | tl_zigbee_sdk/apps/bootLoader/bootloader.c:384-494 | The handler, acting on record, timer, receive buffer and flash, does exactly what the specified step does and keeps the record consistent. |
| `UartUpgrade.Bootloader.StoreBlock` | tl_zigbee_sdk/apps/bootLoader/bootloader.c:453-458 | The block that reaches flash is the received one with the flag byte of a first block disabled; of the receive buffer only that byte changes. |
| `UartUpgrade.Bootloader.UpgradeBlockReqTimerCb` | tl_zigbee_sdk/apps/bootLoader/bootloader.c:364-382 | A tick requests the next block at most five times and then drops the transfer. |
| `UartWire.StartReceived` | tl_zigbee_sdk/apps/bootLoader/bootloader.c:384-395 | A framed start request reaches the upgrade with the size the host meant, whatever lies behind it in memory. |
| `UartWire.BlockReceived` | tl_zigbee_sdk/apps/bootLoader/bootloader.c:435-449 | A framed block reaches it with status, offset, length and data as they were sent. |
| `UartWire.OthersRefused` | tl_zigbee_sdk/apps/bootLoader/bootloader.c:513-527 | Frames of any other type than 0x0210 and 0x0211 are answered as bad messages, and only those. |
| `ImagePatch.CheckFw` | tools/tl_check_fw.py:7-22 | The in-place edits, with Python slice assignment that inserts past the end and a length that may not fit four bytes, leave the file patched or, on the exception, untouched. |
| `ImagePatch.PatchedIsBootable` | tools/tl_check_fw.py:8-19 | A file the tool patches is what the boot code accepts, with its header covering all of it, exactly if it has more than 16 bytes and the flag word; a file that ends where the flag word would start, exactly if the appended CRC spells it. |
| `ImagePatch.PatchKeeps` | tools/tl_check_fw.py:10-16 | No byte of any file outside the length and magic fields changes. |
| `ImagePatch.PatchIdempotent` | tools/tl_check_fw.py:8 | Every file but the empty one is recognised as patched afterwards; patching again changes nothing. |
| `EndToEnd.UploadedIsGood` | tl_zigbee_sdk/apps/bootLoader/bootloader.c:384-494 | When the install check is armed after a session serving the patched file in blocks of any length, the spare slot holds that file and passes the boot check. |
| `EndToEnd.UploadReached` | tl_zigbee_sdk/apps/bootLoader/bootloader.c:384-494 | From every fresh device there is an upload of every such file that gets there. |
| `EndToEnd.UpdateArrives` | tl_zigbee_sdk/apps/bootLoader/bootloader.c:129-223 | From any such upload on, over any run of the install with any failures: the patched file is always whole in one of the two slots, and what is entered is the patched file, byte for byte. |
| `EndToEnd.InstallCheckFired` | tl_zigbee_sdk/apps/bootLoader/bootloader.c:226-231 | With power to the end, the pass the install check starts ends in a reboot into the patched file. |
| `UartCampaign.NeverBricked` | tl_zigbee_sdk/apps/bootLoader/bootloader.c:129-494 | Over any number of uploads of bootable images and install passes, completed, abandoned or cut by power failing between any two flash commands or inside one: the application is whole in the load slot or can still be brought there, and the next pass, whatever fails in it, enters only a whole application and never none. |
| `UartCampaign.InstallKeepsRecoverable` | tl_zigbee_sdk/apps/bootLoader/bootloader.c:129-223 | The same for one install pass cut anywhere. |
| `UartCampaign.EventCut` | tl_zigbee_sdk/apps/bootLoader/bootloader.c:384-494 | Power failing after any number of the flash commands of any upload event leaves the load slot whole, and the spare slot whole, unflagged, or refused with a contained wipe. |
| `UartCampaign.EventTorn` | tl_zigbee_sdk/apps/bootLoader/bootloader.c:384-494 | The same for power failing inside an erase, the write of a block or the write of the flag byte, whatever the addressed bytes become; of the first sector of the slot, as long as what is left there is harmless. |
| `UartCampaign.StartUp` | tl_zigbee_sdk/apps/bootLoader/bootloader.c:129-223 | On a sound chip the next pass with power to the end enters a whole application. |
| `UartCampaign.PendingInstall` | tl_zigbee_sdk/apps/bootLoader/bootloader.c:173-176 | Power may fail in an install so that the spare slot holds the only whole image. |
| `UartCampaign.StartWhilePending` | tl_zigbee_sdk/apps/bootLoader/bootloader.c:388-412 | Where that promise stops, exactly: on a device just powered up a start request leaves the application recoverable if and only if the load slot holds a whole image, or the size is zero or does not fit. |
| `HciTransfer.TransferExact` | tl_zigbee_sdk/zbhci/zbhciCmdProcess.c:1128-1248 | After any events of a session (any loss, repetition or reordering, blocks of any length, responses in and out of a transfer), while a transfer is under way the slot holds exactly the received prefix at its own place and is erased behind it; for a local image the flag byte is blank and the running CRC is that of the prefix without the trailer. |
| `HciTransfer.EveryByteOnce` | tl_zigbee_sdk/zbhci/zbhciCmdProcess.c:1179-1231 | The flash commands since the start of the transfer program each received byte exactly once, in order, at its own offset, and nothing else. |
| `HciTransfer.CrcSplitIndependent` | tl_zigbee_sdk/zbhci/zbhciCmdProcess.c:1186-1196 | For every way of cutting a file of at least four bytes into blocks the accumulated CRC is one pass over all but the last four bytes. |
| `HciTransfer.CrcLenExact` | tl_zigbee_sdk/zbhci/zbhciCmdProcess.c:1187-1194 | What one block adds to the CRC: nothing in the last four bytes, all up to the trailer before them, and for a block past the announced end, where the unsigned difference wraps, the whole block. |
| `HciTransfer.FlagSplitIndependent` | tl_zigbee_sdk/zbhci/zbhciCmdProcess.c:1208-1226 | However a file is cut, and even if the flag word straddles blocks: after any number of blocks the word counts as complete exactly if its last byte has come, and then the bytes judged are those of the file. |
| `HciTransfer.FaithfulHandle` | tl_zigbee_sdk/zbhci/zbhciCmdProcess.c:1117-1250 | Every event keeps the transfer invariant, the timer and the record in step. |
| `HciOutcome.SuccessIsWhole` | tl_zigbee_sdk/zbhci/zbhciCmdProcess.c:1232-1243 | A transfer that ends in success has left the whole file in the slot; a remote one did not carry the boot flag. |
| `HciOutcome.LocalAcceptedIff` | tl_zigbee_sdk/zbhci/zbhciCmdProcess.c:1232-1243 | A complete local image of any length is accepted, and the handover armed, exactly if its flag word is in place and its CRC equals the word at `total - 4` of the address space: its own trailer only for the slot at 0. |
| `HciOutcome.RemoteRefusedIff` | tl_zigbee_sdk/zbhci/zbhciCmdProcess.c:1207-1226 | A remote file is refused for its boot flag at exactly the block that brings the last flag byte, and exactly if the flag word is in the file. |
| `HciOutcome.AbortErases` | tl_zigbee_sdk/zbhci/zbhciCmdProcess.c:1044-1069 | A transfer that ends in any failure, by any event and with any data, leaves every byte it programmed erased up to the reported offset. |
| `HciOutcome.OneEvent` | tl_zigbee_sdk/zbhci/zbhciCmdProcess.c:1071-1080 | Inside a transfer a tick uses up one of five requests, an accepted block moves the offset on and gives them back, and nothing else changes record or flash. |
| `HciOutcome.TransferEnds` | tl_zigbee_sdk/zbhci/zbhciCmdProcess.c:1071-1080 | While a transfer is under way the block timer is armed, and ticks and accepted blocks together are bounded by what was left of the file and by the number of empty blocks, each of which gives the requests back. |
| `HciOutcome.StartAnswers` | tl_zigbee_sdk/zbhci/zbhciCmdProcess.c:1122-1163 | What the answer to a start request means: success that a transfer of this size into the spare slot has begun, with its area erased, nothing else changed in flash and the timer armed; in progress and oversize exactly when they should. |
| `HciOutcome.BlockAnswers` | tl_zigbee_sdk/zbhci/zbhciCmdProcess.c:1164-1248 | What the answer to a block means, status by status, with the size and the place reported: none while more is wanted, past the end, boot flag in a remote file, wrong data, complete. |
| `HciOutcome.ByteBehindDecides` | tl_zigbee_sdk/zbhci/zbhciCmdProcess.c:1198-1205 | A local block that ends right before the flag byte is kept if and only if the byte behind it in the receive buffer, which is not part of it, is 0x4B; otherwise the transfer ends. |
| `HciOutcome.StrayResponse` | tl_zigbee_sdk/zbhci/zbhciCmdProcess.c:1166-1246 | A response while the record is cleared, case by case: a success for another offset than 0 does nothing; one for no bytes only stops the timer, with a handover it may have been armed for; any other stops it, erases the first sector of the chip and nothing else. |
| `HciOutcome.OversizeLeaves` | tl_zigbee_sdk/zbhci/zbhciCmdProcess.c:1128-1163 | A refused oversize start does nothing to flash and timer but leaves slot and size in the record, with no transfer under way. |
| `HciOutcome.OversizeResponse` | tl_zigbee_sdk/zbhci/zbhciCmdProcess.c:1166-1246 | A response after that, and after any blocks that came since, as far as the chip reaches: one for another offset does nothing; one for the offset at hand is programmed where it falls, in the slot or behind it, and arms the block timer until the announced size is reached; a failure, a completed boot flag, and a block past that size clear the record and erase from the start of the slot up to the sector reached, and nothing else. |
| `HciOutcome.UnansweredEnds` | tl_zigbee_sdk/zbhci/zbhciCmdProcess.c:1071-1080 | In a transfer or not, five ticks without an answer each ask for the next 40 bytes or what is left and are counted; the next one ends with a timeout and erases from the start of the slot up to the sector reached, and nothing else. |
| `HciOutcome.OversizeThenStray` | tl_zigbee_sdk/zbhci/zbhciCmdProcess.c:1122-1246 | So a refused start and one response have the spare slot programmed and the timer running although no transfer is under way. |
| `HciOutcome.RestartCancelsHandover` | tl_zigbee_sdk/zbhci/zbhciCmdProcess.c:1154-1157 | A new transfer takes the shared timer handle over, so a pending handover can no longer fire. |
| `HciDelivery.SealedTakenIff` | tl_zigbee_sdk/zbhci/zbhciCmdProcess.c:1117-1250 | For every image in order and every device not in a transfer there is a session that delivers all of it; the last block is then taken exactly if the image went into the slot at 0 or the running image has the same word where the new one ends. |
| `HciDelivery.GoodImageRefused` | tl_zigbee_sdk/zbhci/zbhciCmdProcess.c:1232-1239 | So a device running from 0 answers the last block of an image in order with the status for wrong data whenever that word differs. |
| `HciDelivery.InOrderPasses` | tl_zigbee_sdk/zigbee/ota/ota.c:138-180 | Every image in order whose header gives its length passes the image check of the handover, as the transfer has stored it. |
| `HciDelivery.HandoverBringsUp` | tl_zigbee_sdk/zbhci/zbhciCmdProcess.c:1082-1115 | On a device running from 0 the handover then resets the chip, which boots from 0x40000, where the image lies byte for byte. |
| `HciDelivery.DeliveredComesUp` | tl_zigbee_sdk/zbhci/zbhciCmdProcess.c:1082-1250 | The whole update of such a device: for every image in order that the last check takes there is a session, whose last block is answered with success, after which that image is the one that runs. |
| `HciBootable.AlwaysBootable` | tl_zigbee_sdk/zbhci/zbhciCmdProcess.c:1082-1115 | Over any number of updates, local or remote, started, refused, aborted, completed or cut by power failing between any two flash commands or, in a transfer or a handover, inside one, with any data in the blocks and responses in a transfer or not, the slot the chip boots from holds a sound image: flag word, fitting size and matching CRC; as long as nothing comes that InTransferIff, OutsideIff and TickIff show to cost it. |
| `HciBootable.BoundaryBootable` | tl_zigbee_sdk/zbhci/zbhciCmdProcess.c:1117-1250 | The same for one event, before, between and after its flash commands. |
| `HciBootable.TornBoots` | tl_zigbee_sdk/zbhci/zbhciCmdProcess.c:1082-1246 | Power failing inside a command of a transfer or a handover, whatever it leaves in the bytes addressed: the chip can boot, if the flag byte at 0 has not come out as set. |
| `HciBootable.RunningUntouched` | tl_zigbee_sdk/zbhci/zbhciCmdProcess.c:1122-1246 | The events of a transfer leave the chip booting from the same slot, which they do not touch, wherever power fails. |
| `HciBootable.InTransferIff` | tl_zigbee_sdk/zbhci/zbhciCmdProcess.c:1166-1246 | In a transfer the exact condition: the chip can boot wherever power fails while a block is handled if and only if the block is not one for the slot at 0 that runs past its end while the slots touch, nor one of a remote file for it that brings 0x4B to the place of the flag byte without completing the whole flag word. |
| `HciBootable.OverrunErasesRunning` | tl_zigbee_sdk/zbhci/zbhciCmdProcess.c:1228-1246 | The first of these: the clean-up erases the first sector of the running image, and the chip no longer boots. |
| `HciBootable.RemoteFlagTakesOver` | tl_zigbee_sdk/zbhci/zbhciCmdProcess.c:1206-1231 | The second: as soon as the block is written the chip boots from the slot at 0, where the image is not sound. |
| `HciBootable.OutsideIff` | tl_zigbee_sdk/zbhci/zbhciCmdProcess.c:1166-1246 | Outside a transfer the chip can boot wherever power fails while a response is handled if and only if it can boot after the write, if there is one, and the clean-up, if there is one, is of a slot it can do without; a response whose write leaves what the chip boots from as it is, or takes the flag off the slot at 0 while the other is sound, is allowed. |
| `HciBootable.TickIff` | tl_zigbee_sdk/zbhci/zbhciCmdProcess.c:1071-1080 | The same for a tick of the block timer outside a transfer. |
| `HciBootable.StrayBootsIff` | tl_zigbee_sdk/zbhci/zbhciCmdProcess.c:1166-1246 | After a response while the record is cleared the chip can boot if and only if it was a success for another offset than 0 or for no bytes, or the device runs from 0x40000, or the slot there is sound. |
| `HciBootable.StrayReachesRunning` | tl_zigbee_sdk/zbhci/zbhciCmdProcess.c:1166-1231 | After an oversize start and blocks up to the end of a slot at 0 that touches the other, one more block clears the flag of the running image. |
| `HciBoot.ErasesBootIff` | tl_zigbee_sdk/zbhci/zbhciCmdProcess.c:1056-1059 | Erasing any number of sectors from the start of a slot leaves the chip able to boot, wherever power fails on the way, if and only if the slot is the one at 0x40000 and it boots from 0, or the slot is the one at 0, the other is sound and the erase stays clear of it. |
| `HciBoot.WriteBoots` | tl_zigbee_sdk/zbhci/zbhciCmdProcess.c:1227-1231 | What one write does to booting: if the flag byte at 0 comes or goes the chip boots from the other slot, whatever is there; otherwise from the same one, which is exactly as it was if and only if every byte written into it was there already, and no longer boots if a byte of its flag word was not. |
| `HciHandover.RaisedIsSound` | tl_zigbee_sdk/zigbee/ota/ota.c:138-180 | A slot that passes the image check becomes sound by setting its flag byte: flag word, fitting size and a matching CRC for every size that leaves room for a trailer and does not put it over the flag byte. |
| `HciHandover.ImageCheckIff` | tl_zigbee_sdk/zigbee/ota/ota.c:138-180 | The image check passes a slot if and only if raising its flag byte makes it sound, for every size that leaves room for a trailer clear of the flag byte. |
| `HciHandover.ImageCheckSmall` | tl_zigbee_sdk/zigbee/ota/ota.c:138-180 | For a header size below 4 it passes the slot if and only if the rest of the flag word is there and the word that ends at that size is 0xFFFFFFFF. |
| `HciHandover.HandoverSwitchesIff` | tl_zigbee_sdk/zbhci/zbhciCmdProcess.c:1086-1104 | The handover resets the chip exactly if the image check passes and the flag byte can be set; it then always leaves the chip booting from 0x40000, so it brings the new image up exactly if the device was running from 0; without a reset nothing is switched. |
| `HciHandover.StaysOnB` | tl_zigbee_sdk/zbhci/zbhciCmdProcess.c:1097-1101 | So no handover takes a device that runs from 0x40000 off its image. |
| `HciOta.SaneHandle` | tl_zigbee_sdk/zbhci/zbhciCmdProcess.c:1117-1250 | Through every event, responses outside a transfer included: all flash commands stay on the chip, the block timer is armed in a transfer, and outside one the record is cleared or the one a refused oversize start leaves, until blocks taken then come within a sector of the end of the chip. |
| `HciHandler.OtaHandler.StartRequested` | tl_zigbee_sdk/zbhci/zbhciCmdProcess.c:1122-1163 | The start handler acts on record, timer and flash as the specified step does, for sizes that fit, are too large, or come during a transfer. |
| `HciHandler.OtaHandler.StartCommand` | tl_zigbee_sdk/zbhci/zbhciCmdProcess.c:1122-1163 | The same from the payload: size, and type if there is one. |
| `HciHandler.StartRead` | tl_zigbee_sdk/zbhci/zbhciCmdProcess.c:1132-1139 | Size and type arrive as the host sent them; without a type the file counts as remote. |
| `HciHandler.BlockRead` | tl_zigbee_sdk/zbhci/zbhciCmdProcess.c:1166-1181 | Offset, length and data of a block arrive as the host sent them. |
| `HciHandler.OtaHandler.BlockReceived` | tl_zigbee_sdk/zbhci/zbhciCmdProcess.c:1164-1248 | The block handler, editing the receive buffer in place, does exactly the specified step, for any payload that holds what its status makes the handler read: its commands, record, timer and answers. |
| `HciHandler.OtaHandler.CollectFlag` | tl_zigbee_sdk/zbhci/zbhciCmdProcess.c:1208-1225 | The byte loop with its early exits leaves the flag bytes and the found mark of the specification and says whether they match. |
| `HciHandler.OtaHandler.AccumulateCrc` | tl_zigbee_sdk/zbhci/zbhciCmdProcess.c:1187-1196 | The CRC goes on over as many bytes of the block as the three-way choice in 32-bit arithmetic says, which CrcLenExact spells out. |
| `HciHandler.OtaHandler.Conclude` | tl_zigbee_sdk/zbhci/zbhciCmdProcess.c:1232-1243 | The final status, the handover timer and the clean-up agree with the final check on the flash as it is. |
| `HciHandler.OtaHandler.SendEnd` | tl_zigbee_sdk/zbhci/zbhciCmdProcess.c:1044-1069 | Any status but success erases the sectors up to the current offset; the record is cleared. |
| `HciHandler.OtaHandler.BlockTimerFired` | tl_zigbee_sdk/zbhci/zbhciCmdProcess.c:1071-1080 | A tick does the specified step: a request, or the timeout end. |
| `HciHandler.OtaHandler.HandoverTimerFired` | tl_zigbee_sdk/zbhci/zbhciCmdProcess.c:1082-1115 | The handover does the specified step: new flag first, and only if it took the flag of the slot then taken for the running one is cleared and the chip reset. |
| `Programmer.WriteStores` | tools/TlsrPgm.py:716-772 | Written from a sector boundary on a device that does what it is told, flash holds the file, skipped pages included, whatever was there before; the rest of the touched sectors is blank and no other byte changes. |
| `Programmer.ErasedOnceBeforeWritten` | tools/TlsrPgm.py:723-770 | From a sector boundary every sector is erased at most once and every write follows the erase of its own sector. |
| `Programmer.OrderedPair` | tools/TlsrPgm.py:723-770 | Of two commands the later never erases a sector at or below an earlier erase, nor one an earlier write went into. |
| `AnyStart.AnyStartByte` | tools/TlsrPgm.py:716-772 | From any start, on the page grid or off it, each byte of the file: in a page that starts in the sector before it is lost if another page follows and lands on what was there otherwise; in a page of its own sector it arrives, except that the sector the write starts in the middle of is not erased. |
| `AnyStart.AnyStartIff` | tools/TlsrPgm.py:716-772 | So the exact condition under which a file arrives, for every start and whatever flash held. |
| `AnyStart.MidSectorStart` | tools/TlsrPgm.py:719-722 | On the page grid no page is split: the file arrives exactly if its bytes in the sector entered in the middle can be programmed over what is there. |
| `Programmer.SkippedPage` | tools/TlsrPgm.py:750-768 | Leaving out an all-0xFF page comes to the same as writing it. |
| `TlsrLine.FailsIffThreeInARow` | tools/TlsrPgm.py:718-768 | The caller is told of a failure exactly if three commands in a row go unacknowledged. |
| `TlsrLine.NeverRetried` | tools/TlsrPgm.py:729-768 | On reported success every command has been sent once; those the device refused are simply missing. |
| `TlsrArrival.ArrivesIff` | tools/TlsrPgm.py:716-772 | Success reported, whatever was answered and wherever the file starts: it is in flash exactly if each byte arrived, given whether the erase of its sector and the write of its page, not erased again behind it, were among the commands carried out. |
| `TlsrArrival.FileArrivesIff` | tools/TlsrPgm.py:716-772 | From the page grid, if no erase was refused, success means that the file is in flash if and only if no write from the first sector boundary on was refused and the bytes before it arrived over what was there; lost answers do no harm. |
| `TlsrArrival.AlignedArrivesIff` | tools/TlsrPgm.py:716-772 | From a sector boundary, if no erase was refused, if and only if no write was refused. |
| `TlsrArrival.RefusedEraseIff` | tools/TlsrPgm.py:729-743 | From the page grid, if no write was refused, a refused erase costs nothing exactly if the bytes of the file in its sector can be programmed over what is there. |
| `TlsrLine.SuccessWithoutTheByte` | tools/TlsrPgm.py:751-768 | So success can be reported although the byte is not in flash: one refused write is enough. |
| `TlsrLine.AllGood` | tools/TlsrPgm.py:716-772 | On a device that acknowledges every command all of them are carried out and success is reported. |
| `TlsrPgm.Pgm.WriteBlockFlash` | tools/TlsrPgm.py:716-772 | The loop, over any answers of the device and any start in the address space, carries out what the command list and the answers determine, and reports what they determine. |
| `TlsrPgm.Pgm.WriteFile` | tools/TlsrPgm.py:716-772 | On a device that answers every command a write reports success, and the file is in flash exactly if each of its bytes lands; from a sector boundary it always is, with nothing changed outside its sectors. On any other, from there, success and no refused erase mean the file is there exactly if no write was refused. |
| `TlsrPgm.Pgm.ReadBlockFlash` | tools/TlsrPgm.py:548-563 | Reading in pieces of 1024 gives exactly the flash contents on success, a prefix of them otherwise, and succeeds when every read is answered. |
| `Crc16.TableIsBitwise` | tools/TlsrPgm.py:39-75 | Each of the 256 table entries is eight bitwise steps of the reflected polynomial 0xA001 from its index. |
| `Crc16.TableStepIsBitwise` | tools/TlsrPgm.py:76-80 | One turn of the table-driven loop is eight bitwise steps on state and byte. |
| `Crc16.Crc16` | tools/TlsrPgm.py:76-80 | The table-driven loop gives the bytes of the bitwise CRC started from 0xFFFF, for every message and length, negative ones included. |
| `Crc16.CrcChk` | tools/TlsrPgm.py:83-87 | The check, with its slice that may start before the data, accepts exactly the blocks of at least two bytes that end in the CRC of the rest. |
| `Crc16.ChkIffZero` | tools/TlsrPgm.py:83-87 | A block of at least two bytes is accepted exactly if the CRC state over the whole block is zero. |
| `Crc16.CrcBlk` | tools/TlsrPgm.py:81-82 | The block is the data with the two bytes of its bitwise CRC behind it, low byte first. |
| `Crc16.BlkPasses` | tools/TlsrPgm.py:81-87 | A block with its CRC appended is accepted and gives the data back. |
| `Crc16.DamageRejected` | tools/TlsrPgm.py:83-87 | Damage confined to two neighbouring bytes of an accepted block is always rejected. |
| `Crc16.StepInjective` | tools/TlsrPgm.py:76-80 | Two states never meet on the same byte, so no difference is ever lost behind the damage. |
| `SwireCode.SwsCodeBlk` | tools/TlsrComProg.py:90-112 | The masking of five characters in place, byte by byte, gives the line code of the whole block. |
| `SwireCode.ByteRoundTrip` | tools/TlsrComProg.py:90-112 | Every byte can be read back from its five characters, and so can whether it opens a block. |
| `SwireCode.BlocksRoundTrip` | tools/TlsrComProg.py:90-112 | From the characters of any sequence of blocks sent one after another every byte and every boundary is recovered; only empty blocks leave no trace. |
| `SwireCode.SwsWrAddr` | tools/TlsrComProg.py:117-118 | A write decodes to two blocks: opening byte, 24-bit address, command and data, then the end marker. |
| `SwireCode.SwsRdAddr` | tools/TlsrComProg.py:113-114 | A read decodes to the one block with the read command. |
| `SwireCode.HeaderSpells` | tools/TlsrComProg.py:105-118 | The header is the opening byte, the low 24 bits of the address, most significant byte first, and the command. |
| `UartFrame.FrameRoundTrip` | tl_zigbee_sdk/apps/bootLoader/bootloader.c:496-539 | A frame of an accepted type is dispatched with the type and payload sent, whatever lies behind it in memory; other types are answered as bad messages. |
| `UartFrame.FrameIs` | tl_zigbee_sdk/apps/bootLoader/bootloader.c:251-283 | The frame byte by byte: flags, type and length most significant byte first, the exclusive or of their bytes and the payload, the payload. |
| `UartFrame.DamageRefused` | tl_zigbee_sdk/apps/bootLoader/bootloader.c:496-539 | Any one damaged byte outside the length field is refused. |
| `UartFrame.DamagedPayload` | tl_zigbee_sdk/apps/bootLoader/bootloader.c:514-522 | A damaged payload byte is refused for the check byte. |
| `UartFrame.LengthDamageIff` | tl_zigbee_sdk/apps/bootLoader/bootloader.c:512-514 | One damaged byte of the length field passes exactly if the byte at the place that length gives is the end flag and the check byte over that length is the same; the message is then taken with that length. |
| `UartFrame.LengthDamagePasses` | tl_zigbee_sdk/apps/bootLoader/bootloader.c:512-514 | Such frames exist for every message: there is a longer one whose frame is taken for the shorter when its length field is damaged. |
| `UartFrame.XorAllChange` | tl_zigbee_sdk/apps/bootLoader/bootloader.c:251-264 | Changing one byte of the covered bytes changes the check byte. |
| `UartFrame.Crc8Calc` | tl_zigbee_sdk/apps/bootLoader/bootloader.c:251-264 | The loop gives the check byte over type, length and payload. |
| `UartFrame.UartTx` | tl_zigbee_sdk/apps/bootLoader/bootloader.c:266-283 | The moving pointer leaves exactly the frame in the transmit buffer. |
| `UartFrame.UartRxDataProc` | tl_zigbee_sdk/apps/bootLoader/bootloader.c:496-539 | The nested tests give the specified verdict, status by status. |
| `ZclPacket.LeBeSwap` | tl_zigbee_sdk/zbhci/zbhci.h:254-259 | The swap loop turns round exactly the addressed bytes and leaves the others. |
| `ZclPacket.ReversedValue` | tl_zigbee_sdk/zbhci/zbhci.h:254-259 | Read least significant byte first, the bytes turned round spell the number they spelled most significant byte first. |
| `ZclPacket.Measure` | tl_zigbee_sdk/zbhci/zbhci_zclHandler.c:597-609 | The first scan, in 16-bit arithmetic, counts exactly the value bytes of all records. |
| `ZclPacket.BuildWrite` | tl_zigbee_sdk/zbhci/zbhci_zclHandler.c:596-636 | Both scans end at the same place; the second one fills the buffer the first one sized, exactly, with the converted values and the records that point to them. |
| `ZclPacket.RecsTile` | tl_zigbee_sdk/zbhci/zbhci_zclHandler.c:613-636 | The regions the records point to follow each other from the start to the very end of the data area. |
| `ZclPacket.TileApart` | tl_zigbee_sdk/zbhci/zbhci_zclHandler.c:613-636 | The regions of two records never overlap. |
| `ZclPacket.RecordHolds` | tl_zigbee_sdk/zbhci/zbhci_zclHandler.c:619-636 | Record `i` of the command has the id, type and length of record `i` of the packet and points to its converted value. |
| `ZclPacket.CommandRecord` | tl_zigbee_sdk/zbhci/zbhci_zclHandler.c:619-636 | So record `i` of the command has the id, most significant byte first, and the type that stand at its place in the packet, and points to the value there: as sent for strings and structures, turned round for numbers. |
| `ZclPacket.ValueKept` | tl_zigbee_sdk/zbhci/zbhci_zclHandler.c:626-631 | A value that is neither string nor structure reaches the stack as the little-endian form of the number on the wire; the others as sent. |
| `ZclReport.InStepIffAnalog` | tl_zigbee_sdk/zbhci/zbhci_zclHandler.c:647-704 | The two scans stand at the same place at every record exactly if no sent record is of a discrete type. |
| `ZclReport.SizedExactly` | tl_zigbee_sdk/zbhci/zbhci_zclHandler.c:642-705 | If no sent record before the last is of a discrete type, the first scan can read what the second one can, and the buffer has exactly the size the second one fills. |
| `ZclReport.SafeToExtendIff` | tl_zigbee_sdk/zbhci/zbhci_zclHandler.c:642-705 | A command whose records so far are sized right can go on with any next record, and be sized right, exactly if none of them is a sent one of a discrete type. |
| `ZclReport.SizedShort` | tl_zigbee_sdk/zbhci/zbhci_zclHandler.c:659-661 | Otherwise it need not: a discrete record before an analog one makes the first scan count nothing for a change the second one stores. |
| `ZclReport.Measure` | tl_zigbee_sdk/zbhci/zbhci_zclHandler.c:643-665 | The first scan counts what it reads of the changes, without 16-bit overflow for any list of up to 255 records. |
| `ZclReport.BuildReport` | tl_zigbee_sdk/zbhci/zbhci_zclHandler.c:642-705 | For every list for which the first scan counts at least what the second one stores, the second scan fills that much of the buffer with the converted changes and yields every record. |
| `ZclReport.CfgsTile` | tl_zigbee_sdk/zbhci/zbhci_zclHandler.c:675-704 | The changes the records point to follow each other from the start to the end of the data area. |
| `ZclReport.CfgRead` | tl_zigbee_sdk/zbhci/zbhci_zclHandler.c:675-704 | Record `i` of the command says what stands at its place in the packet: direction, id, type, intervals or timeout, most significant byte first. |
| `ZclReport.CommandChange` | tl_zigbee_sdk/zbhci/zbhci_zclHandler.c:687-695 | And points to the change there, turned round unless it is a string or a structure. |
| `Debounce.CountsWindows` | src/app_smoke.c:93-137 | On every stream of samples the saturating counter reports a level change at exactly the first sample by which some window since the last change has a net of 31 samples for the other level. |
| `Debounce.PrevailsMeansBest` | src/app_smoke.c:93-137 | If some window that ends now has a net of at least `k`, so has the best one the counter stands for. |
| `Debounce.BestMeansPrevails` | src/app_smoke.c:93-137 | The counter stands for a window that really exists in the stream. |
| `Debounce.EndsAgree` | src/app_smoke.c:199-205 | A counter at one of its ends says the level of the last sample and the level reported. |
| `Debounce.FirstRun` | src/app_smoke.c:93-137 | A run of active samples from the start changes the level with the 31st. |
| `ZoneStatus.EachBitItsOwnMachine` | src/app_smoke.c:82-197 | Over any interleaving of samples, battery checks and key events, in and out of the network, each status bit is the output of its own machine on its own events and no other bit ever changes. |
| `ZoneStatus.AlarmsAreDetected` | src/app_smoke.c:99-191 | While joined, ALARM1 and TAMPER are what the window detectors report on their own samples. |
| `ZoneStatus.ReportedAsOf` | src/app_smoke.c:99-191 | For any history of joining and leaving, the level reported is the debounced one as of the last change debounced in the network; changes debounced outside are neither reported nor caught up on. |
| `ZoneStatus.AlarmsAsOf` | src/app_smoke.c:99-191 | So over any history ALARM1 and TAMPER are what the window detectors had found by then. |
| `ZoneStatus.AsleepUpToDate` | src/app_main.c:166-177 | At every entry to low power the debounced levels are those sampled in the same pass, and while joined so are ALARM1 and TAMPER. |
| `ZoneStatus.SteadySleeps` | src/app_main.c:166-177 | Once both inputs have been steady for 31 samples the device enters low power exactly when neither commissioning nor a button keeps it up. |
| `ZoneStatus.AlwaysAgreed` | src/app_smoke.c:12-57 | At any time, and however often the switch action is set anew, the last on/off command is the one for ALARM1 under the action it was sent under, and the last notification carries the status as it is. |
| `ZoneStatus.OneCommandEach` | src/app_smoke.c:12-57 | Every report in the network sends one command, unless the action is to send none, and nothing else sends any. |
| `ZoneStatus.ShownAsOf` | src/app_battery.c:74-151 | Voltage and level shown are always those of the last battery reading. |
| `ZoneStatus.TogglesFollowIffEven` | src/app_smoke.c:48-49 | While the action is to toggle, the number of toggles agrees with ALARM1 exactly if the number of repeated reports is even. |
| `ZoneStatus.StraySampleReturns` | src/app_smoke.c:93-100 | One stray sample during an alarm makes such a repeated report. |
| `Sensor.LowIffLevelZero` | src/app_battery.c:63-72 | The reported level is zero exactly for the readings that set the battery bit, for every ADC value and calibration factor. |
| `Sensor.RoundsToNearest` | src/app_battery.c:97-106 | The rounding picks the nearest tenth of a volt and never leaves 16 bits. |
| `Sensor.LevelIs` | src/app_battery.c:63-72 | The level is 0 up to 7 V, 200 from 9 V on, and counts hundredths of a volt in between. |
| `Sensor.BatteryShown` | src/app_battery.c:86-148 | From the reading to what is shown: the nearest tenth of a volt, the battery bit exactly below 7.05 V, the level of the rounded voltage. |
| `Sensor.App.SmokeHandler` | src/app_smoke.c:82-192 | Counters, attribute word, commands and notifications change as the specified step says. |
| `Sensor.App.AppTask` | src/app_main.c:166-177 | Samples first and then enters low power exactly if nothing is being debounced and nothing else is busy. |
| `Sensor.App.BatteryCb` | src/app_battery.c:74-151 | Voltage, level and status bit are those of the specified step for every reading. |
| `Sensor.App.SetSwitchAction` | src/app_endpoint_cfg.c:236 | Writing the attribute changes the action used from then on, and nothing else. |
| `Sensor.App.KeyPressed` | src/app_button.c:50-80 | The press sets the test bit, and only for the test button while joined. |
| `Sensor.App.KeyReleased` | src/app_button.c:83-111 | The release clears it, and only for the test button while joined. |

## Left out

- BootSafe.CrashSafe: what a torn erase leaves of the first sector of the spare slot is taken to be harmless: unflagged, or refused by the CRC with a header whose wipe stays in the slot; anything else there could be installed, or wiped beyond the slot.
- BootSafe.RejectedKeepsApp: the code is taken to go on even if the wipe has come round to the sectors the boot code itself lies in; the chip is taken to ignore the address bits above its size.
- UartUpgrade.SessionSafe: one host that serves one image at a time; images of at least one byte.
- UartCampaign.NeverBricked: hosts that upload bootable images only, with first blocks past the flag byte, and only while the application is in place, as StartWhilePending shows they must; the same about a torn first sector.
- HciTransfer.TransferExact: files of at least one byte; one file at a time.
- HciOta.SaneHandle: blocks that come after an oversize start are followed up to the last sector of the chip; OversizeResponse and OutsideIff stop there too.
- HciBootable.AlwaysBootable: power failing inside a command is followed in transfers and handovers only, and is taken not to leave the flag byte at 0 set by chance; of writes outside a transfer it allows those that leave what the chip boots from as it is or give way to a sound slot, where WriteBoots says what the others do; an image whose header size is below 4 or puts the trailer over the flag byte is sound by its flag word alone.
- HciHandover.HandoverSwitchesIff: the build without BOOT_LOADER_MODE, the only one that clears the other flag.
- TlsrPgm.Pgm.WriteBlockFlash: the size passed is the size of the file, as both callers pass it, and the file lies within the address space; the ready poll between commands is taken to succeed, and the reply fields `err` and `wcnt` are part of the answer.
- AnyStart.AnyStartByte: a chip that stores a page off the grid in one piece; real chips wrap within 256 bytes, and what the device makes of such a command is up to its firmware, which is not part of this repository.
- ZclReport.BuildReport: for lists for which the first scan counts less than the second one stores, the source writes past its buffer.
- Sensor.App.KeyPressed: button times, counters and the factory reset are not modelled, nor is their place in `button_idle`, which enters as an input.
- The driver's splitting of one `flash_write` into page programs, which is one command here; what power failing inside a command may leave is in the install machine, `UartCampaign.EventTorn` and `HciBootable.TornBoots`.
- A read past the end of the chip gives 0xFF. An erase there wraps (`NorFlash.Landing`), which only the wipe of the install pass asks for as far as the HCI blocks are followed.
- The entries of `crc32_table`: no result depends on them.
- The chunked loop of `ota_newImageValid`; its verdict is one pass over the image with the flag byte set.
- The voltage guards and watchdog calls of the flash driver, flash lock and unlock, RAM-code copying, LEDs, printing, argument parsing and serial-port handling.
- `zbhciTxClusterCmdAddrResolve`, the read and read-report commands, and the other handlers of the two HCI files: they move cursors over fixed fields.
- A failed `ev_buf_allocate`, after which nothing is built or sent.
- `TlsrComProg.py`'s write and read loops: the same loops with pieces of 1024 bytes and two failures.
- Radio, commissioning, reporting timers, poll control, the sample applications and the zigbee2mqtt converter.
