# Models of the HPMicro drivers

Dafny models of the protocols inside a set of Zephyr drivers for HPMicro microcontrollers, and proofs of what
they promise. The models follow the C code branch by branch; where the code breaks a promise, the exact
condition under which it keeps it is proved instead, with an example of a failure.

`dafny verify dfyconfig.toml` checks everything.

## What is modelled

Most modules have two layers. A pure layer gives the state as a datatype and the effect of each entry point,
interrupt or hardware event as a function; invariants, runs and the main theorems are about it. A class has
the driver's own fields and its methods have the shape of the C functions; each method is proved to have
exactly the effect the pure layer says. A run is any interleaving of the steps, from the initial state.

- **Asynchronous UART receive over a DMA channel** (`DmaChannel`, `UartRx`, `UartRxProofs`). The UART driver
  slices a buffer that DMA is still writing, from a residual count that the DMA driver reads as 0 once its
  `busy` flag is cleared. A monitor that knows nothing of the driver's state says which event logs are right.
- **CAN transmission** (`CanFrame`, `CanTx`, `CanTxProofs`, `CanTxDriver`). Any number of concurrent single
  sends and batches over a one-token semaphore, a mutex, one callback slot and a finish semaphore, with the
  controller's secondary buffer and the interrupt that completes a request. A call is cut into steps where it
  can wait.
- **Receive filters of CAN and MCAN** (`FilterRows`, `CanFilter`, `McanFilter`). Append, removal by swap with
  the last, lookup under an inverted mask, dispatch of received frames. A word is the set of its one bits.
- **SPI scatter and gather** (`SpiChunks`, `SpiContext`, `SpiDriver`). Lists of buffers of unequal lengths cut
  into chunks, on the interrupt path and in the DMA loop, against one specification of full duplex.
- **USB device endpoints** (`Udc`, `UdcProofs`). The queue, the busy flag, zero-length packets, the chain of
  transfer descriptors, whatever the controller answers.
- **Camera** (`Camera`). Two queues of buffers and the rotating searches of the interrupt.
- **I2C master writes** (`I2cMaster`, `I2cProofs`). The transfer state machine against a controller with a FIFO
  of any depth, whichever addresses are acknowledged.
- **Frame buffer** (`Display`), **panel commands** (`MipiCommands`), **ADC sequences** (`AdcSequence`),
  **PWM reload values** (`PwmReload`).

`Words` holds the machine words and error numbers.

## What is assumed

An interrupt handler is one step. Kernel and SDK primitives are small: a semaphore is a count with limit 1, a
mutex an owner, a fifo a sequence, `spi_context` a cursor, a register the flag or number it holds.

- DMA: enabling a channel after its terminal count starts nothing; the SDK accepts the UART's channel settings;
  a UART transfer ends with terminal count (what happens otherwise is `ErrorOverReports` and
  `ErrorThenFlushIff`). The application calls back only to supply a buffer.
- CAN: the primary transmit buffer is unused; the secondary-buffer event comes once per accepted request, when
  all its frames are sent.
- SPI: a chunk that is started and not failed moves all its bytes; of a DMA chunk whose wait fails any first part
  may have been moved on either side.
- USB: one endpoint's enqueue (put, peek and feed) is one step; `halted` belongs to the layer above.
- Camera: a queued buffer is not enqueued again before it is dequeued; the test of a done register against the
  driver's own buffer is false once that buffer is released.
- I2C: an interrupt is taken only while an enabled event is pending; a transaction completes only after its
  byte count has left the FIFO.

## Where the code does not do what it seems to

- After a DMA error the receive path reports the bytes that were never written (`ErrorThenFlushIff`).
- Enabling reception that is already on drops the bytes not yet delivered (`StreamConservation`,
  `EnableDropsExample`).
- A filled receive buffer with no successor is released twice, and one delivered whole that has a successor never
  (`ReleasedOnceIff`).
- With two blocking CAN sends at once one can return on the other's signal (`NoneCanWakeEarlyIff`,
  `SecondBlockingSendWakesEarly`), or wait on although its request has completed, until some other blocking send
  completes (`NoneCanStrandIff`, `SecondSignalIsLost`, `StaysStranded`).
- Configuring a DMA channel for an unsupported direction returns with interrupts locked (`DmaChannel.Configure`).
- A single send checks ESI against BRS where its message and the batch check say FDF (`ChecksAgreeIff`).
- Removing a CAN filter that is not the last leaves its callback behind for the one moved into its slot
  (`RemoveKeepsAlignedIff`, `RemoveMisdirects`); adding to a full table leaves the mutex locked
  (`FilterTable.AddRxFilter`).
- Both CAN drivers number a new filter by how many there are, so after the removal of an earlier one two filters
  have one number (`AddKeepsDistinctIff`, `NumberedTwice`), and in the CAN driver a removal can then take both
  (`RemovalGoesOn`).
- MCAN numbers filters separately in its two tables, and a removal takes the number out of both
  (`RemovalSparesIff`, `RemovalTakesBoth`); here too a full table leaves the mutex locked (`Bank.Add`).
- An SPI DMA chunk that `spi_setup_dma_transfer` refuses ends the transfer with a return value of 0, and every
  failure leaves the select line asserted (`Driver.TransceiveDma`).
- A USB buffer followed by a zero-length packet comes back undrained (`SentWholeDrainedIff`); a dequeue on a
  busy endpoint lets two transfers run at once (`DequeueKeepsOneTransferIff`); a failed transfer leaves its endpoint
  busy with nothing in flight, and nothing but a dequeue frees it (`OneTransferForTheHead`, `WedgedForGood`,
  `DequeueFrees`).
- A camera interrupt for a start of frame alone searches for address 0 and turns the queue (`SofAlone`); one for a
  start of frame and a finished frame can give back the wrong buffer (`FinishedIsGivenBackIff`,
  `WrongBufferGivenBack`).
- A first I2C address that is not acknowledged gives completion twice, so that the next transfer does not wait
  (`NackGivesTwice`, `WaitsForItsOwnIff`, `LeftOverIff`), and the one after that can fail because of what that one
  left enabled (`OvertakingFails`); a later one is not noticed (`SuccessIsCompleteIff`,
  `LaterNackUnnoticed`), and a later message that is too long stops a transfer for good (`StuckIffTooLong`).
- A frame whose lines are not whole cache lines may not be written back completely (`BytesLeftBehind`), and a
  write that is too wide goes on into the next line (`WrapsIff`).
- A zero length byte makes the panel parser write 255 bytes (`ZeroLengthReadsOn`).

## Model

| member | source | states |
|---|---|---|
| Dma.DmaChannel.Configure | drivers/dma/dma_hpmicro.c:180-298 | which slots, channels and directions are rejected and what each outcome leaves of the flags; an unsupported direction on a busy channel leaves it busy but not valid, and on any channel it returns with interrupts locked |
| Dma.DmaChannel.Start | drivers/dma/dma_hpmicro.c:300-315 | a configured channel becomes busy and runs if a transfer is armed, any other call fails and changes nothing |
| Dma.DmaChannel.Stop | drivers/dma/dma_hpmicro.c:317-331 | the channel is invalid afterwards, and a busy one is aborted with its status cleared |
| Dma.DmaChannel.Suspend | drivers/dma/dma_hpmicro.c:333-342 | only a busy channel is disabled |
| Dma.DmaChannel.Resume | drivers/dma/dma_hpmicro.c:344-353 | only a busy channel is enabled, and it runs on if its transfer has not ended |
| Dma.DmaChannel.Reload | drivers/dma/dma_hpmicro.c:356-383 | a configured channel is reprogrammed but neither started nor marked busy |
| Dma.DmaChannel.GetStatus | drivers/dma/dma_hpmicro.c:390-404 | the pending length is the residual while busy and 0 otherwise |
| Dma.DmaChannel.TransferEnded | drivers/dma/dma_hpmicro.c:67-97 | busy is cleared before the client is called, with success exactly on terminal count |
| Dma.BusyImpliesValidIff | drivers/dma/dma_hpmicro.c:180-383 | each call keeps "busy implies valid" exactly when it is not a configure with an unsupported direction on a busy channel |
| Dma.BusyImpliesValid | drivers/dma/dma_hpmicro.c:180-404 | over any history without such a configure a busy channel is a configured one |
| UartRx.UartRxDriver.RaiseRxRdy | drivers/serial/uart_hpmicro.c:549-568 | the slice at the current offset is raised if it is not empty, and the offset moves past it |
| UartRx.UartRxDriver.RequestBuffer | drivers/serial/uart_hpmicro.c:570-577 | the request is raised, and an answer from inside the callback is the next buffer |
| UartRx.UartRxDriver.Flush | drivers/serial/uart_hpmicro.c:589-615 | total minus offset minus pending bytes, in unsigned arithmetic, are handed over |
| UartRx.UartRxDriver.RxDisable | drivers/serial/uart_hpmicro.c:678-713 | flush, release, stop and clear, in this order, ending with the disabled event |
| UartRx.UartRxDriver.ReplaceRxBuffer | drivers/serial/uart_hpmicro.c:715-739 | the next buffer, if there is one, becomes the current one with DMA running on it; otherwise an error and no change |
| UartRx.UartRxDriver.RxEnable | drivers/serial/uart_hpmicro.c:809-850 | reception starts on the given buffer after one was requested |
| UartRx.UartRxDriver.RxBufRsp | drivers/serial/uart_hpmicro.c:852-868 | the buffer becomes the next one |
| UartRx.UartRxDriver.DmaInterrupt | drivers/serial/uart_hpmicro.c:870-903 | a terminal count flushes, releases what was sliced, and swaps the buffer or disables reception; an error only clears busy |
| UartRx.UartRxDriver.TimeoutInterrupt | drivers/serial/uart_hpmicro.c:500-506 | suspend, flush, resume |
| UartRxProofs.FreshIsExact | drivers/serial/uart_hpmicro.c:600-602 | in every reachable state offset plus pending is at most the total, so the subtraction is exact and is the number of undelivered bytes |
| UartRxProofs.FlushDrains | drivers/serial/uart_hpmicro.c:589-615 | a flush delivers exactly the undelivered bytes |
| UartRxProofs.CompletionFlush | drivers/dma/dma_hpmicro.c:67-78 | at terminal count the cleared busy flag does not change what a flush delivers |
| UartRxProofs.StepKeepsInv | drivers/serial/uart_hpmicro.c:489-903 | every step keeps driver counters, channel registers and the log's monitor in agreement |
| UartRxProofs.QueueIsTheGap | drivers/serial/uart_hpmicro.c:549-568 | in a right log, from any moment on from which nothing is dropped, the bytes then undelivered and those written since are those delivered since and those still undelivered |
| UartRxProofs.StreamConservation | drivers/serial/uart_hpmicro.c:549-903 | over every run the bytes written are those delivered followed by those in memory from the current offset on, exactly if reception was never enabled while bytes were undelivered; as many bytes are missing as were dropped that way, and at a disabled event only those |
| UartRxProofs.ConservationSinceEnabled | drivers/serial/uart_hpmicro.c:809-850 | over every run, since reception was last enabled the bytes written are those delivered followed by those in memory from the current offset on |
| UartRxProofs.EverythingHandedOver | drivers/serial/uart_hpmicro.c:500-506 | over every run each receive timeout, completion and disabling delivers exactly the bytes that were undelivered and leaves none, so that just then all bytes written have been delivered exactly if reception was never enabled while bytes were undelivered |
| UartRxProofs.EnableDropsExample | drivers/serial/uart_hpmicro.c:809-850 | a run that enables a second buffer with one byte undelivered: the byte is lost and the first buffer never released |
| UartRxProofs.SliceDiscipline | drivers/serial/uart_hpmicro.c:549-739 | over every run each slice names the buffer loaded last and not released since, continues where the slices before it ended, and stays in bounds; each loaded buffer had been offered |
| UartRxProofs.ChannelDiscipline | drivers/dma/dma_hpmicro.c:300-353 | over every run a busy channel is valid, an armed one enabled, and offset plus pending within the total |
| UartRxProofs.ErrorOverReports | drivers/dma/dma_hpmicro.c:67-78 | after an error the next flush reports exactly the residual bytes too many |
| UartRxProofs.ErrorThenFlushIff | drivers/dma/dma_hpmicro.c:390-404 | after an error the log stays right over the next flush exactly if nothing was left to receive |
| UartRxProofs.ErrorExample | drivers/serial/uart_hpmicro.c:870-880 | a four-byte buffer with one byte written is reported as four bytes after an error |
| UartRxProofs.CompletionWithoutNext | drivers/serial/uart_hpmicro.c:890-897 | the events of a completion with no next buffer: a release if bytes were undelivered, then another one and the disabled event |
| UartRxProofs.CompletionWithNext | drivers/serial/uart_hpmicro.c:890-897 | the events of a completion with a next buffer: a release if bytes were undelivered, then the request and the next buffer |
| UartRxProofs.ReleasedOnceIff | drivers/serial/uart_hpmicro.c:890-897 | a completion releases the buffer exactly once exactly if it has a successor just when some of it was undelivered; otherwise never or twice |
| CanFrame.ChecksAgreeIff | drivers/can/can_hpmicro.c:413-445 | single sends and batches accept the same frames except FD frames with ESI and only one of BRS and FDF |
| CanFrame.ChecksMeaning | drivers/can/can_hpmicro.c:413-445 | by flags, DLC and mode: which frames pass each check and which error the others get |
| CanFrame.DlcLengths | drivers/can/can_hpmicro.c:389-396 | the data length of every DLC, as a number |
| CanFrame.WireDeterminesFrame | drivers/can/can_hpmicro.c:383-396 | what is sent for a frame arrives, field by field, as its identifier, DLC, IDE, RTR, FDF, BRS and the bytes of its DLC, and as nothing else |
| CanFrame.ReadMessage | drivers/can/can_hpmicro.c:136-154 | the receive side sets the message's fields and flags one by one and copies the bytes of its DLC |
| CanFrame.TxSlot.Convert | drivers/can/can_hpmicro.c:379-397 | the local copy holds the frame's header and as many bytes as its DLC says |
| CanFrame.TxSlot.FillFrom | drivers/can/can_hpmicro.c:399-411 | the word copy covers every payload byte and writes nothing beyond the last word |
| CanTxDriver.Driver.CheckSend | drivers/can/can_hpmicro.c:520-579 | the checks of a single send before it waits, in order |
| CanTxDriver.Driver.CheckBatch | drivers/can/can_hpmicro.c:447-477 | the checks of a batch: size, each frame, then the device; the first failure is returned |
| CanTxDriver.Driver.TakeToken | drivers/can/can_hpmicro.c:479-481 | the token is taken, or the call returns without it |
| CanTxDriver.Driver.LockMutex | drivers/can/can_hpmicro.c:482-485 | the mutex is taken, or the token is given back |
| CanTxDriver.Driver.SendLocked | drivers/can/can_hpmicro.c:595-616 | a single send from the mutex on, step by step and by fields: slot set, the frame in the buffer, request in flight and mutex given back; or slot cleared, mutex and token given back, and the error returned is the one the call is recorded with |
| CanTxDriver.Driver.BatchLocked | drivers/can/can_hpmicro.c:487-511 | a batch from the mutex on, step by step and by fields: every frame in the buffer, one request in flight and the mutex given back; or everything as it was and token and mutex given back, if the buffer is not empty |
| CanTxDriver.Driver.LoadFrames | drivers/can/can_hpmicro.c:500-509 | every frame is loaded, in order, each as one step of the protocol |
| CanTxDriver.Driver.WakeUp | drivers/can/can_hpmicro.c:513-515 | the blocking call takes the finish semaphore and returns 0 |
| CanTxDriver.Driver.TcEventHandler | drivers/can/can_hpmicro.c:194-212 | slot cleared, token given, and the callback made or the finish semaphore given |
| CanTxProofs.StepKeepsInv | drivers/can/can_hpmicro.c:194-624 | every step of any call, of the controller and of the interrupt keeps the protocol's invariant |
| CanTxProofs.TokenConservation | drivers/can/can_hpmicro.c:447-624 | in every reachable state the semaphore's count, the calls holding the token and the request in flight add up to one |
| CanTxProofs.CompletionInOrder | drivers/can/can_hpmicro.c:194-212 | completed requests are a prefix of the accepted ones, at most one behind; no call is accepted twice; the callbacks made are exactly the completed ones', in order, and the frames on the bus those of the completed or of the accepted ones |
| CanTxProofs.ErrorNeverCallsBack | drivers/can/can_hpmicro.c:584-624 | a request is accepted exactly if its call returned 0 or still will, so one that returned an error never calls back |
| CanTxProofs.BatchFindsBufferEmpty | drivers/can/can_hpmicro.c:487-498 | a call with token and mutex finds the buffer empty and the slot clear, so the not-empty branch is never taken there |
| CanTxProofs.BatchIsWhole | drivers/can/can_hpmicro.c:500-510 | when a batch starts, slot k of the buffer arrives as frame k, for each of its one to four frames and no more |
| CanTxProofs.BusCarriesFrames | drivers/can/can_hpmicro.c:379-411 | over every run what has been on the bus arrives as exactly the frames of the requests sent, in order |
| CanTxProofs.PrecheckMeaning | drivers/can/can_hpmicro.c:447-477 | which submissions pass, by size, frames and device, and which error the others get |
| CanTxProofs.AcceptedWasGood | drivers/can/can_hpmicro.c:447-579 | over every run each accepted request was submitted to a device that was started and not bus-off, with frames whose number, flags and DLC fit its mode |
| CanTxProofs.ErrorHasItsCause | drivers/can/can_hpmicro.c:447-624 | over every run a call that fails does so with the error of a failing step of its own: its checks, a timeout, or the refusal of its message |
| CanTxProofs.FirstRefusalMeaning | drivers/can/can_hpmicro.c:464-471 | a batch passes exactly if all its frames do, and otherwise returns the first bad frame's error |
| CanTxProofs.RejectedForGood | drivers/can/can_hpmicro.c:454-477 | over every run a request that fails its checks changes nothing that calls share, and in every later state its call has returned that error, holds neither token nor mutex and has no request accepted |
| CanTxProofs.BlockingSendWaits | drivers/can/can_hpmicro.c:513-515 | with at most one blocking call between submission and wake-up, a blocking call returns 0 only after its own request completed |
| CanTxProofs.CompletedCanWakeUp | drivers/can/can_hpmicro.c:513-515 | under the same condition a call waiting for a request that has completed can always wake |
| CanTxProofs.NoneCanWakeEarlyIff | drivers/can/can_hpmicro.c:194-212 | the condition is exact: over every run some state lets a blocking call return before its own completion exactly if in some state two calls block at once |
| CanTxProofs.WakesEarly | drivers/can/can_hpmicro.c:618-621 | such a state leads, by the call's own next steps, to its return of 0 with its request not completed |
| CanTxProofs.SecondBlockingSendWakesEarly | drivers/can/can_hpmicro.c:618-621 | a run with two blocking sends in which the second returns 0 while its request is in flight |
| CanTxProofs.SecondSignalIsLost | drivers/can/can_hpmicro.c:194-212 | a run with two blocking sends that both complete before either wakes: one is left waiting with only a new send possible |
| CanTxProofs.NoneCanStrandIff | drivers/can/can_hpmicro.c:194-212 | the condition is exact for this failure too: over every run some state can lead, with no further request accepted, to a completed call that waits with no signal left exactly if in some state two calls block at once |
| CanTxProofs.PairStrands | drivers/can/can_hpmicro.c:194-212 | from two calls blocking at once, the first completed and the second just accepted, completion and the second one's own next steps strand the first |
| CanTxProofs.SignalIff | drivers/can/can_hpmicro.c:205-209 | an empty finish semaphore is given exactly by the completion of a request without a callback |
| CanTxProofs.StaysStranded | drivers/can/can_hpmicro.c:513-515 | over every run a completed call whose signal is gone stays waiting, whatever else happens, until another request without a callback completes |
| FilterRows.StoredIsSpecified | drivers/can/can_hpmicro.c:111-117 | comparing with OR under the complemented mask is masked equality as specified |
| FilterRows.SwapRemoveKeepsOthers | drivers/can/can_hpmicro.c:704-717 | swap with the last removes exactly the one row, as multisets |
| CanFilter.FirstMatch | drivers/can/can_hpmicro.c:104-121 | the lookup finds the least slot whose row matches, and none only if no row does |
| CanFilter.FilterTable.FirstFilterIndex | drivers/can/can_hpmicro.c:104-121 | the search loop computes the least matching slot |
| CanFilter.FilterTable.GetMessage | drivers/can/can_hpmicro.c:124-175 | the callback invoked is that of the least matching slot if its RTR setting agrees |
| CanFilter.FilterTable.AddRxFilter | drivers/can/can_hpmicro.c:631-686 | a filter is appended with its callback, or rejected; a full table leaves the mutex locked |
| CanFilter.FilterTable.RemoveRxFilter | drivers/can/can_hpmicro.c:694-727 | the loop that goes on after a removal leaves what the sweep leaves |
| CanFilter.SweepFinds | drivers/can/can_hpmicro.c:701-725 | with distinct indexes the loop that goes on removes just the one row by a swap with the last |
| CanFilter.RemoveKeepsOthers | drivers/can/can_hpmicro.c:694-727 | removing any position keeps exactly the other rows, their indexes distinct, and accepts the union over them |
| CanFilter.RemoveOfAbsent | drivers/can/can_hpmicro.c:701-725 | an index that is not there removes nothing |
| CanFilter.AddKeepsDistinctIff | drivers/can/can_hpmicro.c:648-656 | an add keeps the indexes distinct exactly if no filter has the number of filters as its index |
| CanFilter.NumberedTwice | drivers/can/can_hpmicro.c:648-727 | add, add, remove the first, add leaves two filters numbered 1, and removing 1 leaves the later one installed |
| CanFilter.RemovalGoesOn | drivers/can/can_hpmicro.c:701-725 | with another filter behind the two numbered 1, removing 1 removes both |
| CanFilter.RowsEnabled | drivers/can/can_hpmicro.c:655-661 | over adds and removals of the newest every filter in use is enabled |
| CanFilter.HistoryAligned | drivers/can/can_hpmicro.c:631-727 | over adds and removals of the newest, slots, callbacks and RTR bits belong to the registered filters in order |
| CanFilter.DispatchOverHistories | drivers/can/can_hpmicro.c:157-174 | over such histories a frame invokes exactly the callback of the first registered filter that matches as specified, and nothing if its RTR setting differs |
| CanFilter.RemoveKeepsAlignedIff | drivers/can/can_hpmicro.c:704-717 | a removal keeps callbacks with their filters exactly if the newest is removed, or it shares callback and RTR setting with the newest |
| CanFilter.RemoveMisdirects | drivers/can/can_hpmicro.c:704-717 | after removing the first of two filters a frame for the second invokes the first one's callback |
| McanFilter.FirstMatch | drivers/can/mcan_hpmicro.c:115-140 | the lookup finds the least matching element, and none only if none matches |
| McanFilter.TakesAsSpecified | drivers/can/mcan_hpmicro.c:604-605 | an installed element takes exactly the identifiers that match as specified |
| McanFilter.RemoveKeepsOthers | drivers/can/mcan_hpmicro.c:721-779 | removal from either table keeps exactly the other elements and accepts the union over them |
| McanFilter.AddKeepsDistinctIff | drivers/can/mcan_hpmicro.c:591-600 | an add keeps a table's numbers distinct exactly if no element has the number of elements as its number |
| McanFilter.NumberedTwice | drivers/can/mcan_hpmicro.c:591-779 | add, add, remove the first, add leaves two elements numbered 1, and removing 1 leaves the later one |
| McanFilter.RemovalStops | drivers/can/mcan_hpmicro.c:730-751 | with another element behind the two numbered 1, removing 1 removes only the first of them |
| McanFilter.Bank.Add | drivers/can/mcan_hpmicro.c:575-687 | an element is appended under its number with its mask complemented, or the table is full and the mutex stays locked |
| McanFilter.Bank.Remove | drivers/can/mcan_hpmicro.c:721-779 | the first element with the number is overwritten by the last, and only that |
| McanFilter.Tables.FirstFilterIndex | drivers/can/mcan_hpmicro.c:115-140 | the frame's identifier type picks the table |
| McanFilter.Tables.AddRxFilter | drivers/can/mcan_hpmicro.c:694-713 | flags and callback are checked, the identifier type picks the table and the other is unchanged |
| McanFilter.Tables.RemoveRxFilter | drivers/can/mcan_hpmicro.c:721-779 | the number is taken out of both tables |
| McanFilter.RemovalUnchangedIff | drivers/can/mcan_hpmicro.c:730-751 | a removal changes nothing exactly if the number is not in the table |
| McanFilter.RemovalSparesIff | drivers/can/mcan_hpmicro.c:730-776 | a removal meant for one table spares the other exactly if that does not hold the number |
| McanFilter.RemovalTakesBoth | drivers/can/mcan_hpmicro.c:730-776 | with one filter in each table, removing the one removes the other |
| SpiChunks.FillMeaning | drivers/spi/spi_hpmicro.c:373-415 | without null buffers position i of the receive buffers holds received byte i and the rest is untouched |
| SpiChunks.FillAt | drivers/spi/spi_hpmicro.c:585-587 | storing bytes at the cursor's place is receiving them next |
| SpiChunks.StreamAround | drivers/spi/spi_hpmicro.c:328-371 | the bytes of a buffer sit in the whole stream behind those of the buffers before it |
| SpiChunks.PlanMeaning | drivers/spi/spi_hpmicro.c:103-142 | every chunk is non-empty, within the hardware maximum and in step or one-sided; together they take as many clocks as the longer side has bytes |
| SpiChunks.ChunksAreLargest | drivers/spi/spi_hpmicro.c:103-142 | each chunk moves on every side that has bytes left, no buffer ends inside it, and it ends a buffer of one side or has the hardware maximum |
| SpiContext.SkipEmpty | drivers/spi/spi_hpmicro.c:486 | the context stands on a non-empty buffer or at the end, and loses no byte in getting there |
| SpiContext.Updated | drivers/spi/spi_hpmicro.c:585-587 | an update within the current buffer moves the context by just that many bytes; one beyond it does nothing |
| SpiContext.ChunkCursors | drivers/spi/spi_hpmicro.c:221-229 | giving both contexts the one length is the same as giving each its own, and both stay in step with the clocks |
| SpiContext.ChunkMoves | drivers/spi/spi_hpmicro.c:96-142 | a chunk stays inside the current buffers and takes full duplex at n clocks to full duplex at its end |
| SpiContext.PartMoves | drivers/spi/spi_hpmicro.c:417-437 | any first part of a chunk on either side is the next bytes of that side |
| SpiContext.CourseStep | drivers/spi/spi_hpmicro.c:96-142 | the sizes the driver chooses are the next chunk of the plan for the whole lists |
| SpiContext.CompleteTransfer | drivers/spi/spi_hpmicro.c:439-600 | at the end the bytes driven are all transmit buffers one after the other, and receive position i holds the answer to clock i |
| SpiDriver.Driver.TransferNextPacket | drivers/spi/spi_hpmicro.c:78-174 | the five size cases choose the chunk; with nothing left the select line is dropped and completion given |
| SpiDriver.Driver.TransferCallback | drivers/spi/spi_hpmicro.c:221-229 | both contexts are updated by the transfer length and the next chunk is chosen |
| SpiDriver.Driver.Transceive | drivers/spi/spi_hpmicro.c:604-633 | the interrupt path moves the plan's chunks up to the first that is not started; if all are, every byte is moved, then the select line is dropped and completion given; otherwise the wait times out |
| SpiDriver.Driver.TransceiveDma | drivers/spi/spi_hpmicro.c:439-600 | the DMA loop moves the same plan's chunks up to the first that fails, of which at most a first part is moved; the select line is dropped only at the end; 0 is returned exactly if all were moved or the failing one was refused by the set-up |
| SpiDriver.PathsAgree | drivers/spi/spi_hpmicro.c:439-633 | both paths leave logs with the same chunks, those of the plan, and with one select-off and, on the interrupt path, one completion exactly if they are all of them |
| SpiDriver.SelectBrackets | drivers/spi/spi_hpmicro.c:439-633 | on both paths chunks move only between select-on and select-off, completion comes after select-off, and the line is left asserted exactly if a chunk was not moved |
| Udc.Driver.EpFeed | drivers/usb/udc/udc_hpmicro.c:87-133 | a busy endpoint is left alone; otherwise the head's transfer is started and the endpoint busy, or neither |
| Udc.Driver.EpTryFeed | drivers/usb/udc/udc_hpmicro.c:136-149 | an empty queue or a busy endpoint counts as success |
| Udc.Driver.EpEnqueue | drivers/usb/udc/udc_hpmicro.c:560-571 | the buffer goes last, and an endpoint that is not halted is fed |
| Udc.Driver.EpDequeue | drivers/usb/udc/udc_hpmicro.c:573-590 | all buffers are given back aborted, halted and busy cleared |
| Udc.Driver.HandlerZlt | drivers/usb/udc/udc_hpmicro.c:358-380 | exactly a flagged buffer sent whole has its flag cleared and a zero-length transfer started |
| Udc.Driver.HandlerIn | drivers/usb/udc/udc_hpmicro.c:382-416 | the head is terminated by a zero-length transfer or given back drained, and the next is fed |
| Udc.Driver.HandlerOut | drivers/usb/udc/udc_hpmicro.c:330-355 | the head is given back with the received bytes that fit, and the next is fed |
| Udc.Driver.WalkChain | drivers/usb/udc/udc_hpmicro.c:492-515 | the length is the bytes of all descriptors modulo 2^32, and there is none exactly if one failed or is active |
| Udc.MovedBounds | drivers/usb/udc/udc_hpmicro.c:507 | retired descriptors moved between none and all of the bytes expected |
| Udc.BitsDistinct | drivers/usb/udc/udc_hpmicro.c:81-84 | no two endpoints share a completion bit |
| Udc.BitOfEndpoint | drivers/usb/udc/udc_hpmicro.c:81-84 | the bit of each OUT and of each IN endpoint |
| Udc.Driver.Isr | drivers/usb/udc/udc_hpmicro.c:488-527 | each endpoint whose bit is set is handled once from its own chain, and no other changes |
| UdcProofs.StepKeepsInv | drivers/usb/udc/udc_hpmicro.c:87-613 | enqueue, completion, failure, halt and clear-halt keep the endpoint's invariant, whatever the controller answers |
| UdcProofs.ReportsInOrder | drivers/usb/udc/udc_hpmicro.c:290-416 | over every run buffers come back in the order they were enqueued, each with what its own transfer moved, and none is lost; an error event stands exactly for each refused zero-length transfer |
| UdcProofs.ReportedBytes | drivers/usb/udc/udc_hpmicro.c:290-326 | over every run, byte for byte: an OUT buffer comes back with the received bytes behind its own and so much less room, an IN buffer without the bytes sent, unless a zero-length packet followed it |
| UdcProofs.OutBytesArrive | drivers/usb/udc/udc_hpmicro.c:310-355 | over every run of an OUT endpoint the bytes the reported buffers have gained, one after the other, are those the controller delivered |
| UdcProofs.EnqueueStartsIff | drivers/usb/udc/udc_hpmicro.c:560-571 | an enqueue starts the head's transfer exactly on an endpoint that is neither halted nor busy, if the controller takes it |
| UdcProofs.DoneFeedsNext | drivers/usb/udc/udc_hpmicro.c:290-326 | a completion that gives a buffer back feeds the next one, halted or not |
| UdcProofs.OneTransferForTheHead | drivers/usb/udc/udc_hpmicro.c:87-149 | over every run at most one transfer is in flight, on a busy endpoint and for the head; a non-empty endpoint that is not halted is busy unless its last feed was refused; it is busy with nothing in flight exactly from the first failed transfer on |
| UdcProofs.WedgedForGood | drivers/usb/udc/udc_hpmicro.c:499-502 | over every run an endpoint whose transfer failed starts, reports and raises nothing any more, whatever is enqueued and however often the halt is cleared |
| UdcProofs.DequeueFrees | drivers/usb/udc/udc_hpmicro.c:573-590 | a dequeue gives back all buffers, if there are any, and makes the endpoint a fresh one but for its logs and what is still in flight |
| UdcProofs.LateCompletion | drivers/usb/udc/udc_hpmicro.c:330-390 | a completion that comes after a dequeue reports nothing and raises an error |
| UdcProofs.WorkConserving | drivers/usb/udc/udc_hpmicro.c:87-149 | with a controller that takes every transfer and completes it a non-empty endpoint that is not halted always has one in flight |
| UdcProofs.TransfersAreExact | drivers/usb/udc/udc_hpmicro.c:358-416 | once all is reported exactly one transfer per buffer was started, and one of length zero after it exactly if it was flagged, sent whole and the controller took it |
| UdcProofs.TransfersOfOne | drivers/usb/udc/udc_hpmicro.c:102-119 | what is started for one buffer: its room or its data, and a zero-length transfer exactly after flagged data sent whole that the controller takes |
| UdcProofs.SentWholeDrainedIff | drivers/usb/udc/udc_hpmicro.c:290-307 | a buffer sent whole comes back drained exactly if no zero-length transfer followed or it was empty |
| UdcProofs.DequeueKeepsOneTransferIff | drivers/usb/udc/udc_hpmicro.c:573-590 | after a dequeue the next enqueue keeps one transfer at a time exactly if the endpoint was not busy or its transfer had failed |
| UdcProofs.InterruptCompletes | drivers/usb/udc/udc_hpmicro.c:488-527 | a retired chain that covers the transfer in flight completes it, and the 16-bit length loses nothing |
| UdcProofs.InterruptFails | drivers/usb/udc/udc_hpmicro.c:496-502 | a chain with a failed descriptor is a failure: the driver leaves the endpoint alone while the controller has nothing in flight any more |
| Camera.Driver.StartOfFrame | drivers/video/camera_hpmicro.c:87-112 | the search stops within one more get than entries, at the first entry that is not in the active register, which it loads |
| Camera.Driver.FindDone | drivers/video/camera_hpmicro.c:146-165 | the search stops within one more get than entries and takes out the first entry with the address, or turns the queue by one |
| Camera.Driver.Isr | drivers/video/camera_hpmicro.c:71-185 | the whole interrupt, including the case that only a start of frame came |
| Camera.Driver.Enqueue | drivers/video/camera_hpmicro.c:320-353 | the buffer goes last in the input queue |
| Camera.Driver.Dequeue | drivers/video/camera_hpmicro.c:355-371 | the oldest finished buffer, or an error and no change |
| Camera.Driver.Cancel | drivers/video/camera_hpmicro.c:295-318 | waiting buffers go to the output queue in order |
| Camera.SearchMeaning | drivers/video/camera_hpmicro.c:146-165 | an entry is taken exactly if one has the address, it has it, and the others stay |
| Camera.SearchOrder | drivers/video/camera_hpmicro.c:146-165 | the first entry with the address is taken, the entries before it come last, and a fruitless search puts the head last |
| Camera.IsrMovesOne | drivers/video/camera_hpmicro.c:114-185 | an interrupt gives back at most one buffer, which was queued, and all others stay |
| Camera.FinishedIsGivenBackIff | drivers/video/camera_hpmicro.c:87-185 | by the done register at entry: unless the start of frame in the same interrupt reloads it, a buffer is given back exactly if the frame was not the driver's own and its buffer is queued, and it is that one; if it reloads it, a wrong buffer is given back |
| Camera.WrongBufferGivenBack | drivers/video/camera_hpmicro.c:87-185 | an interrupt that gives back the buffer just loaded and leaves the finished one queued |
| Camera.SofLoads | drivers/video/camera_hpmicro.c:87-112 | the register that is due gets the first queued buffer it does not hold, and keeps its value exactly if it holds them all |
| Camera.SofOrder | drivers/video/camera_hpmicro.c:87-112 | a start of frame puts the entries up to the one it loads last, or the head, if it loads none |
| Camera.NextSofReloadsFinished | drivers/video/camera_hpmicro.c:87-142 | over two interrupts: after a finished frame that is not the driver's own the next start of frame leaves the other register alone and loads the finished one exactly if a queued buffer differs from it and the driver has none of its own |
| Camera.OwnIsReleasedIff | drivers/video/camera_hpmicro.c:114-142 | the driver's own buffer is released by the interrupt for its frame, which changes nothing else, and by no other |
| Camera.SofAlone | drivers/video/camera_hpmicro.c:145-169 | a start of frame alone gives a buffer back exactly if one lies at address 0, and otherwise turns the queue by one after its load |
| Camera.BufferConservation | drivers/video/camera_hpmicro.c:87-371 | over every run each buffer enqueued and not dequeued is in exactly one queue, and nothing else is |
| I2cMaster.Driver.Transfer | drivers/i2c/i2c_hpmicro.c:119-181 | no message and too long a first one return at once; otherwise the first transaction is issued with its count, over whatever still ran; the completion semaphore keeps its count, a pending address hit and the FIFO interrupts stay as they are |
| I2cMaster.Driver.TakeCompletion | drivers/i2c/i2c_hpmicro.c:181 | the wait is over at once if a give was counted, and otherwise lasts until one |
| I2cMaster.Driver.ReturnValue | drivers/i2c/i2c_hpmicro.c:183-186 | an error exactly if the first address was not acknowledged, as the status says it when the wait is over |
| I2cMaster.Driver.Restart | drivers/i2c/i2c_hpmicro.c:249-295 | the next transaction is issued, with a start and address exactly if its message is flagged, and the address interrupt or else the FIFO interrupt enabled; or it is refused with no effect if it is too long |
| I2cMaster.Driver.WriteBytes | drivers/i2c/i2c_hpmicro.c:350-358 | the FIFO is filled from the message in order, or the rest of the message is put in it and the interrupt disabled |
| I2cMaster.Driver.Isr | drivers/i2c/i2c_hpmicro.c:297-425 | address, transmit and completion parts of the interrupt, for a master write |
| I2cProofs.StepKeepsInv | drivers/i2c/i2c_hpmicro.c:297-425 | every step, acknowledged or not, keeps the transfer's invariant |
| I2cProofs.InterruptsAreSafe | drivers/i2c/i2c_hpmicro.c:339-386 | no interrupt that can come reads past a message or finds data to receive |
| I2cProofs.WritesArrive | drivers/i2c/i2c_hpmicro.c:119-425 | over every run, for any FIFO depth, the wire carries a prefix of the acknowledged messages one after the other and no index passes its length; completion comes at most once, at the last message with all of them sent, or twice, exactly if the first address was not acknowledged |
| I2cProofs.AcknowledgedWritesArrive | drivers/i2c/i2c_hpmicro.c:119-425 | with every address acknowledged completion comes at most once, and then all messages have been sent |
| I2cProofs.StartsAreFlagged | drivers/i2c/i2c_hpmicro.c:271-293 | over every run a start and the address are sent at the first message and at exactly those flagged for a restart, in order; an address is answered only there, and before that no byte of the message is on the wire |
| I2cProofs.SuccessIsCompleteIff | drivers/i2c/i2c_hpmicro.c:183-185 | a transfer that reports success sent every message exactly if those not acknowledged were empty |
| I2cProofs.LaterNackUnnoticed | drivers/i2c/i2c_hpmicro.c:329-331 | a run of two messages, the second not acknowledged, that reports success with the first one's byte on the wire |
| I2cProofs.NothingAfterCompletion | drivers/i2c/i2c_hpmicro.c:410-421 | after completion no interrupt comes, and on success every message's length was accepted |
| I2cProofs.StuckIffTooLong | drivers/i2c/i2c_hpmicro.c:255-257 | before completion the transfer is stuck exactly if the current message is too long for the controller |
| I2cProofs.NackGivesTwice | drivers/i2c/i2c_hpmicro.c:329-336 | a first address that is not acknowledged gives completion twice: the second give is left over, and the next transfer returns with nothing sent |
| I2cProofs.BegunAtRest | drivers/i2c/i2c_hpmicro.c:131-180 | a transfer begins as the runs do exactly if no address hit is pending and no FIFO interrupt enabled |
| I2cProofs.OvertakingFails | drivers/i2c/i2c_hpmicro.c:308-337 | a transfer begun over one that still runs can be interrupted before its address was sent exactly if a hit is pending or the FIFO-empty interrupt enabled; with that interrupt alone it fails as not acknowledged, though no address was refused |
| I2cProofs.EarlyReturnEnablesFifo | drivers/i2c/i2c_hpmicro.c:181 | a transfer that returned on a left-over give comes to the state in which the next one fails so |
| I2cProofs.WaitsForItsOwnIff | drivers/i2c/i2c_hpmicro.c:181 | in every run a transfer returns only after its own completion exactly if none was left over when it began |
| I2cProofs.LeftOverIff | drivers/i2c/i2c_hpmicro.c:181 | over every run a transfer leaves a give over for the next one exactly if its caller came to wait before completion was given, and the first address was not acknowledged or a give had been left over before |
| Display.Panel.Write | drivers/display/display.c:239-267 | the row loop copies the rows: with pixels of whole bytes, pixel column x + c in line y + r holds the source's pixel byte for byte; the range written back starts at the first byte's cache line and is as long as the rows' lines |
| Display.RoomIff | drivers/display/display.c:255-260 | all rows lie in memory exactly if the last one ends in it |
| Display.WriteFitsIff | drivers/display/display.c:248-260 | by coordinates, pitch and height: a write of at least one row stays in the frame exactly if the end of its last row does |
| Display.Panel.FbAlloc | drivers/display/display.c:51-70 | the aligned frame and the rounded range that is cleared fit the block wherever it is, with no byte to spare at the worst address |
| Display.RowsHold | drivers/display/display.c:255-260 | row i of the frame holds row i of the source |
| Display.RowsKeep | drivers/display/display.c:255-260 | a byte outside every row is unchanged |
| Display.RectangleOnly | drivers/display/display.c:248-260 | by lines and columns exactly the pitch-wide rectangle changes, to the source's bytes |
| Display.WrapsIff | drivers/display/display.c:248-260 | a row stays in its line exactly if its columns do |
| Display.WrittenBackIff | drivers/display/display.c:249-264 | the range written back covers every byte written exactly if the start's offset in its cache line fits the rounding |
| Display.WholeLinesAreWrittenBack | drivers/display/display.c:249-264 | with lines of whole cache lines every byte written is covered |
| Display.BytesLeftBehind | drivers/display/display.c:249-264 | a rectangle in a frame with lines of 100 bytes that is not covered |
| MipiCommands.PanelCmdInit | drivers/display/display_mipi_hpmicro.c:164-197 | the loop terminates on every array and issues what the format says, or would read outside exactly if a record is not inside |
| MipiCommands.RoundTrip | dts/bindings/display/hpmicro,hpm-display-mipi.yaml:21-28 | parsing the encoding of any records issues exactly their writes and delays in order and stays inside |
| MipiCommands.OneRecord | drivers/display/display_mipi_hpmicro.c:180-195 | one record is written if it has data, and then waited for if it has a delay |
| MipiCommands.InsideIffEncoding | drivers/display/display_mipi_hpmicro.c:180-184 | with no zero length byte the parser stays inside exactly if the array is an encoding |
| MipiCommands.ZeroLengthReadsOn | drivers/display/display_mipi_hpmicro.c:181-184 | a zero length byte the parser comes to makes it leave the array, or write 255 bytes, wait as the next byte says and go on one byte further |
| AdcSequence.AscendingMeaning | drivers/adc/adc_hpmicro_adc12.c:177-189 | the channel order is strictly ascending, holds exactly the mask's bits and is as long as their number |
| AdcSequence.SampleOfChannel | drivers/adc/adc_hpmicro_adc12.c:253-258 | a sampling's sample of a channel stands behind those of the channels below it |
| AdcSequence.Driver.StartChannel | drivers/adc/adc_hpmicro_adc12.c:162-216 | the hardware queue is the mask in ascending order |
| AdcSequence.Driver.Isr | drivers/adc/adc_hpmicro_adc12.c:240-268 | sample k is that of entry k of the same order, cut to the resolution, at consecutive places; nothing else is written |
| AdcSequence.Scaled | drivers/adc/adc_hpmicro_adc12.c:257 | a sample is below two to the resolution |
| AdcSequence.ScaledIsTop | drivers/adc/adc_hpmicro_adc12.c:257 | a sample is the high bits of the 12-bit result, as many as the resolution says |
| AdcSequence.Driver.StartRead | drivers/adc/adc_hpmicro_adc12.c:97-140 | only no oversampling and 6, 8, 10 or 12 bits are accepted |
| AdcSequence.Driver.Read | drivers/adc/adc_hpmicro_adc12.c:218-238 | after any kept and repeated samplings the m-th kept one stands m times the number of channels behind the start, the last one at its place, and the pointer behind those kept |
| AdcSequence.RoomForIff | drivers/adc/adc_hpmicro_adc12.c:257 | all samplings find room exactly if there is room for one more than were kept before the last |
| PwmReload.ChooseReload | drivers/pwm/pwm_hpmicro.c:85-117 | the first multiplier that fits is taken for period and for compare value, and the call fails exactly if one of them has none |
| PwmReload.RejectIff | drivers/pwm/pwm_hpmicro.c:85-111 | with a pulse within the period the call fails exactly if a seventeenth of the period exceeds 24 bits, never because of the compare value |
| PwmReload.ReloadIsTight | drivers/pwm/pwm_hpmicro.c:86-89 | the reload value is in the upper half of its range and the rounds miss at most one count each |
| PwmReload.CompareWithinReload | drivers/pwm/pwm_hpmicro.c:90-98 | the compare value needs no larger multiplier than the reload value |

## Left out

- Register writes, pins, clocks, PHYs, device trees, logging, diagnostics and timestamps: no state worth an
  invariant.
- SDHC, Ethernet, `dmav2_hpmicro.c`, `adc_hpmicro_adc16.c`, MCAN transmission: retry loops that give no sound
  basis, parts in the SDK, or near copies of what is modelled.
- The DMA interrupt's loop over channels: one channel's interrupt at a time.
- DMA channels in other directions than peripheral to memory, and linked or burst transfers: only the flags are
  modelled.
- The UART's transmit side and its reply `-ENOTSUP` without the asynchronous interface.
- UartRx.UartRxDriver.DmaLoad: the result of `dma_config`, which the driver ignores too, is always success.
- `hpm_can_recover`, modes, timing and state changes of CAN: no part in the transmit protocol.
- A null frame or device pointer given to a CAN send.
- CanTxDriver.Driver.SendLocked: the token and mutex waits before it and the wake-up after it are methods of
  their own, because other calls run in between.
- SpiDriver.Driver.Transceive: the FIFO interrupts inside a chunk are one step, and its data claim for null
  buffers is that of the DMA path, since the interrupt path does not support them.
- SpiDriver.Driver.TransceiveDma: the wait ends when either direction reports done; the model takes the chunk
  as moved when the controller is idle again.
- SPI locking, hold-on-select and asynchronous calls belong to `spi_context`, which is not part of this model.
- USB control transfers and the no-cache heap: they depend on `udc_common`, which is not part of this model.
- Udc.Driver.Isr: completions of the control endpoint are skipped, and bus reset, suspend and port events are
  not modelled.
- Camera formats and controls, the poll signal (which the interrupt raises with the error result every time), and
  the variant with end-of-frame interrupts.
- I2C reads, the slave role, 10-bit addressing, and whether a transaction ends with a stop.
- I2cMaster.Driver.Isr: the receive branch is not modelled; `InterruptsAreSafe` shows a master write never takes
  it.
- Display blanking, brightness and panel reset.
- The PWM trigger mode, the second PWM version and the register writes after the search.
