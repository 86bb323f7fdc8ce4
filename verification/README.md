# A verified model of the terminal workspace's control logic

This project models, in Dafny, the control logic of a GPU-rendered terminal workspace: its terminal grid and
selections, its vi-mode word motions, the PTY event loop and the fair lock that protects the terminal, the permit
pool of its SFTP transfers, the undoable tile canvas, and the text scanners, key bindings and command suggestions of
the application. Operating-system results (reads,
writes, polls, lock contention, arriving messages) are arbitrary, protocols are proved over every run of any number of
threads or clients, and what a result assumes stands in its contract or under "Left out".

`dafny verify dfyconfig.toml` checks the whole project.

## Modules

| file | module | what it is about |
|---|---|---|
| `Grid.dfy` | `Grid` | Points of the grid as cell numbers: addition, subtraction and clamping under three boundary rules |
| `Selection.dfy` | `Selections` | Selections as half-cell intervals: conversion to ranges, and rotation with scrolling content |
| `ScrolledSelection.dfy` | `ScrolledSelections` | Rotation with anchors anywhere, what is displayed afterwards, and resizing |
| `BlockSelection.dfy` | `BlockSelections` | Block ranges for anchors on any row |
| `ViMode.dfy` | `ViMode` | Word motions on the grid against word motions on the flattened text |
| `EventLoop.dfy` | `EventLoop` | The PTY event loop: write queue, read buffer, message queue, write interest |
| `FairMutex.dfy` | `FairMutex` | The two-mutex lock as a step protocol over any number of threads |
| `PermitPool.dfy` | `PermitPool` | The resizable asynchronous semaphore as a step protocol over any number of clients |
| `LostTokens.dfy` | `LostTokens` | Which pools can still serve a waiting client |
| `History.dfy`, `Tiles.dfy` | `History`, `Tiles` | Undo and redo stacks grouped by version, and the canvas they are replayed on |
| `StaleRedo.dfy` | `StaleRedos` | Runs that change things after undoing, against a canvas that clears its redo stack |
| `GroupRedo.dfy` | `GroupRedos` | Redoing a group of changes on another layout, and undoing it |
| `FishProbe.dfy` | `FishProbe` | Removal of the fish shell's newline probes against a plain scanner |
| `Fences.dfy` | `Fences` | Reading fenced code blocks, and the printer it inverts |
| `Keymap.dfy` | `Keymap` | An append-only keymap against a map from actions to keys |
| `Suggestions.dfy` | `Suggestions` | Merging suggestion files and looking candidates up by prefix |
| `Lookup.dfy` | `Lookups` | What a lookup yields, in terms of the files alone |
| `Utf8.dfy` | `Utf8` | Texts as bytes: order and prefixes are those of the code points |
| `Text.dfy`, `Sequences.dfy`, `Wrappers.dfy` | `Text`, `Sequences`, `Wrappers` | Searching and trimming; a sequence fact; the option type |

Code that updates state in place is a class or a method with loops, proved equal to a function of the old state; what
the code promises is proved about those functions. Concurrent parts (`FairMutex`, `PermitPool`) are state machines
over their atomic steps.

## Where the code does not do what one would expect

Each of these is a lemma with a concrete input, and beside it stands the exact condition under which the code is right.

- **Rotation.** `selection.rs` clamps an anchor that is pushed below the screen to the last row in its own column before
  it looks at the region's end, it cannot leave out blank lines that scroll into the middle of a selection, and it moves
  anchors in the history when lines scroll down from line 0, though the history itself stays.
  `Selections.ScrollingDownLosesACell`, `ScrolledSelections.BlankLineIsSelected` and
  `ScrolledSelections.HistoryDoesNotScrollDown` are the inputs; `Scrolls` is exactly when rotation is right
  (`ScrolledSelections.RotationIsSoundAnywhere`, `ScrolledSelections.RotationIsWrongSomewhere`), and `BlockScrolls` for
  blocks. When the screen shrinks, the same clamp loses cells (`ScrolledSelections.ShrinkingLosesACell`,
  `ScrolledSelections.ResizeFollowsContent`).
- **Row breaks and rows outside the grid.** The right half of a row's last cell to the left half of the next row's first
  cell spans no cell, and one is displayed (`Selections.RowBreakDisplaysACell`); `DrawnExactly` is the exact condition.
  A block that scrolls past the top of a screen without history is displayed from the first column on
  (`BlockSelections.ScrolledBlockGrows`); `BlockDrawnExactly` is the exact condition.
- **Empty inputs.** An empty input in the channel stays in the write queue for good, with everything behind it
  (`EventLoop.EmptyInputBlocksTheRest`, `EventLoop.InputAfterEmptyIsStuck`): what the PTY has accepted or can still be
  sent is exactly the input before the first empty one, at every moment (`Accounted`, part of the invariant kept by
  `EventLoop.EventLoop.Run`). This is why `event_loop.rs:352` warns of it.
- **Failed reads.** Three bytes, a taken lock and a hang-up lose the three bytes (`EventLoop.HangUpLosesBytes`). Bytes are
  lost exactly if a read fails after some were read and the lock was found taken ever since, with room left in the
  buffer (`EventLoop.LostExactly`).
- **Fairness.** The comment at `sync.rs:7-10` promises that a waiting thread is not overtaken. A thread that waits can be
  passed any number of times before it moves (`FairMutex.WaitingIsNotEnough`, `FairMutex.CanBePassed`); it is safe exactly
  while it holds one of the mutexes (`FairMutex.SafeExactlyWhileHolding`).
- **Lost permits.** A client dropped after a token was sent to it but before it received it never gives the token back.
  `LostTokens.OneLossBlocksForGood` is a pool of size 1 that never serves its waiting client; a waiting client can be
  served without a resize exactly if fewer tokens were lost than the pool has permits
  (`LostTokens.ServedExactlyIfFewLost`).
- **Stale redo.** `history.rs` does not clear the redo stack when a change is pushed, so a redo may apply changes to a
  layout they were not made on (`Tiles.RedoAfterChangeIsStale`, `GroupRedos.StaleDrag`). The canvas behaves like one that
  clears the stack exactly as long as no stale entry is redone (`StaleRedos.StepExact`). A redone group that was recorded
  change by change is undone again exactly if each of its changes finds the values it replaced and no entry to be undone
  shares its version (`GroupRedos.GroupRedoIsUndoneExactly`, `GroupRedos.StaleGroupIsNotUndone`); versions are shared
  when a change follows an undo within the group interval (`GroupRedos.SharedVersionIsNotUndone`).
- **Shared keys.** An override that takes another action's key leaves that action without a key, and clearing it does not
  give it back (`Keymap.ClearingDoesNotGiveBack`); swapping two keys in one go fails as well (`Keymap.SwappedKeysFail`).
  `Keymap.EditExact` has the exact condition for one edit, `Keymap.EndExact` for the end of a run.
- **The last code point.** The suggestion lookup scans up to the word followed by U+10FFFF, so it misses commands in
  which more text follows that code point (`Suggestions.LastCodePointIsMissed`, `Suggestions.ScanIsPrefixFilter`).

## Model

| member | source | states |
|---|---|---|
| `Grid.AddIsLinear` | crates/alacritty_terminal/src/index.rs:81-89 | Adding n columns adds n to the cell number, and then only the boundary rule acts |
| `Grid.SubIsLinear` | crates/alacritty_terminal/src/index.rs:67-76 | Subtracting n columns, with its rounded-up borrow, subtracts n from the cell number, and then only the boundary rule acts |
| `Grid.SubUndoesAdd` | crates/alacritty_terminal/src/index.rs:67-89 | Without a boundary, subtracting what was added gives every grid point back, for every n |
| `Grid.AddUndoesSub` | crates/alacritty_terminal/src/index.rs:67-89 | The same the other way round |
| `Grid.ClampLineWraps` | crates/alacritty_terminal/src/index.rs:143-166 | The unbounded line clamp is the one line of the grid that is equal modulo the number of lines |
| `Grid.ClampLineIsNearest` | crates/alacritty_terminal/src/index.rs:141-150 | Clamping a line to the viewport or the grid gives the nearest line there |
| `Grid.WrapPos` | crates/alacritty_terminal/src/index.rs:143-166 | Wrapping a line and keeping the column is wrapping the cell number modulo the size of the grid |
| `Grid.ClampSettles` | crates/alacritty_terminal/src/index.rs:94-116 | Clamping a point, in cell numbers, for all three boundary rules |
| `Grid.ClampIsAProjection` | crates/alacritty_terminal/src/index.rs:94-116 | Clamping to the viewport or the grid lands inside, is idempotent, and keeps the point order |
| `Grid.PosOrder` | crates/alacritty_terminal/src/index.rs:125-131 | The point order is the order of the cell numbers |
| `Grid.InGridByPos` | crates/alacritty_terminal/src/grid/mod.rs:605-638 | A point is in the grid exactly if its cell number lies between the first cell of the topmost and the last of the bottommost line |
| `Selections.Selection.constructor` | crates/alacritty_terminal/src/selection.rs:135-143 | A new selection has both anchors at one place |
| `Selections.Selection.Update` | crates/alacritty_terminal/src/selection.rs:146-148 | Dragging moves the end anchor and nothing else |
| `Selections.Selection.IncludeAll` | crates/alacritty_terminal/src/selection.rs:265-281 | Sets both sides so that the selection becomes the full-cell one of the specification |
| `Selections.Selection.Rotate` | crates/alacritty_terminal/src/selection.rs:150-204 | The anchors after a rotation are those of the rotated view; false exactly if nothing is left |
| `Selections.RotationKeepsEnds` | crates/alacritty_terminal/src/selection.rs:150-204 | For drags in both directions and every type, each anchor is unchanged outside the region, moved by the scrolled lines, or clamped on its own side, and stays the end of the drag it was |
| `Selections.UnclampedAnchorsMove` | crates/alacritty_terminal/src/selection.rs:150-204 | An anchor that leaves neither region nor screen moves by the scrolled lines and keeps column and side |
| `Selections.UpwardDragKeepsItsStart` | crates/alacritty_terminal/src/selection.rs:163-166 | The start of an upward drag is still its lower end after a rotation |
| `Selections.RotationDropsExactly` | crates/alacritty_terminal/src/selection.rs:168-198 | When a rotation drops the selection, exactly |
| `Selections.OtherTypesMoveLikeSimple` | crates/alacritty_terminal/src/selection.rs:150-281 | Semantic and line selections rotate and widen like a Simple one with the same anchors, and never test empty |
| `Selections.WideningKeepsPoints` | crates/alacritty_terminal/src/selection.rs:265-281 | Including all cells changes no anchor's point and swaps no ends |
| `Selections.ContainsByPos` | crates/alacritty_terminal/src/selection.rs:61-67 | A non-block range contains exactly the cells numbered from its start to its end |
| `Selections.EmptyByEdges` | crates/alacritty_terminal/src/selection.rs:206-238 | A Simple selection tests empty exactly if its two edges coincide, except across a row break |
| `Selections.SimpleRangeWellFormed` | crates/alacritty_terminal/src/selection.rs:284-309 | For anchors on any rows, a displayed Simple range is ordered and inside the grid |
| `Selections.SimpleRangeExact` | crates/alacritty_terminal/src/selection.rs:351-388 | For anchors in the grid, the displayed cells are exactly those between the two half-cell edges; across a row break one cell is displayed |
| `Selections.DrawnExactlyIsSound` | crates/alacritty_terminal/src/selection.rs:284-388 | For anchors on any rows: under the exact condition, a cell of the grid is displayed if and only if the selection covers it |
| `Selections.DrawnExactlyIsNecessary` | crates/alacritty_terminal/src/selection.rs:284-388 | When the condition fails, some cell of the grid is displayed wrongly |
| `Selections.RowBreakDisplaysACell` | crates/alacritty_terminal/src/selection.rs:351-388 | A selection that covers no cell and displays one |
| `BlockSelections.BlockDrawnExactlyIsSound` | crates/alacritty_terminal/src/selection.rs:284-309 | For anchors on any rows: under the exact condition, a Block displays a cell of the grid if and only if its rectangle covers it |
| `BlockSelections.BlockDrawnExactlyIsNecessary` | crates/alacritty_terminal/src/selection.rs:390-416 | When the condition fails, some cell of the grid is displayed wrongly |
| `BlockSelections.ScrolledBlockGrows` | crates/alacritty_terminal/src/selection.rs:293-301 | A rotated block on a screen without history displays a cell outside its rectangle |
| `BlockSelections.BlockColumnsOrdered` | crates/alacritty_terminal/src/selection.rs:390-416 | For anchors on any rows: when there is a block range, that its rows are in the grid and in order, and exactly when its columns are |
| `Selections.AllCellsDisplayed` | crates/alacritty_terminal/src/selection.rs:265-281 | After including all cells, everything between the two points, or the whole rectangle, is displayed, in all drag directions |
| `ScrolledSelections.RotationIsSoundAnywhere` | crates/alacritty_terminal/src/selection.rs:150-204 | With the anchors in the region, above it, below it, around it or in the history: under the exact condition, a cell is selected afterwards if and only if its content was, staying where it is outside the region and surviving inside |
| `ScrolledSelections.RotationIsWrongSomewhere` | crates/alacritty_terminal/src/grid/mod.rs:206-284 | When the condition fails, some cell is selected wrongly, and for anchors in the grid some cell of the grid; scrolling down from line 0 leaves the history where it is |
| `ScrolledSelections.DisplayIsExpected` | crates/alacritty_terminal/src/selection.rs:150-309 | After a right rotation of any anchors, in the grid as it is then, every cell is displayed as it should be if and only if the rotated anchors can be drawn |
| `ScrolledSelections.RotationFollowsDisplay` | crates/alacritty_terminal/src/selection.rs:150-309 | From screen to screen: displayed cells follow their content at every cell if and only if the rotated anchors can be drawn |
| `ScrolledSelections.RotationIsDisplayedExactly` | crates/alacritty_terminal/src/term/mod.rs:799-860 | From screen to screen, the other way: as long as the rotated anchors can be drawn, displayed cells follow their content at every cell if and only if the condition for rotation holds |
| `ScrolledSelections.RotatedIsDrawnExactly` | crates/alacritty_terminal/src/selection.rs:150-309 | They can be drawn unless the upper one leaves the history at the top |
| `ScrolledSelections.GrowingHistoryFollowsDisplay` | crates/alacritty_terminal/src/term/mod.rs:843-848 | While the history grows with the scroll, displayed cells follow their content |
| `Selections.ScrollingDownLosesACell` | crates/alacritty_terminal/src/selection.rs:150-204 | A visible selected cell that is no longer selected after scrolling down |
| `ScrolledSelections.BlankLineIsSelected` | crates/alacritty_terminal/src/selection.rs:150-204 | A blank line scrolled into a selection becomes part of it |
| `ScrolledSelections.HistoryDoesNotScrollDown` | crates/alacritty_terminal/src/grid/mod.rs:259-280 | Scrolling down from line 0 drops a selected row of the history, which stays, and displays a blank line as selected |
| `ScrolledSelections.ResizeFollowsContent` | crates/alacritty_terminal/src/term/mod.rs:716-740 | When the screen gets another number of lines, rotation is right for every cell if and only if the condition for content holds, which it does whenever the screen grows |
| `ScrolledSelections.BlockResizeFollowsContent` | crates/alacritty_terminal/src/term/mod.rs:716-740 | The same for Block selections |
| `ScrolledSelections.ShrinkingLosesACell` | crates/alacritty_terminal/src/term/mod.rs:716-740 | A selected cell that stays on a shrinking screen and is no longer selected |
| `ScrolledSelections.BlockRotationIsSoundAnywhere` | crates/alacritty_terminal/src/selection.rs:150-204 | Block selections with anchors anywhere, the history included, are rotated rightly under their exact condition |
| `ScrolledSelections.BlockRotationIsWrongSomewhere` | crates/alacritty_terminal/src/selection.rs:150-204 | When that condition fails, some cell is selected wrongly |
| `ViMode.Word` | crates/alacritty_terminal/src/vi_mode.rs:344-382 | The motion ends, stays in the grid, and for all four combinations of direction and side stops at the nearest word end or start of the flattened text, or at the text's end |
| `ViMode.SkipAhead` | crates/alacritty_terminal/src/vi_mode.rs:353-367 | The loops that look at the next cell stop where the run of blanks, or of non-blanks, ends in the flattened text |
| `ViMode.SkipCurrent` | crates/alacritty_terminal/src/vi_mode.rs:369-379 | The loops that look at the current cell stop at the first blank, or non-blank, of the flattened text |
| `ViMode.AdvanceIsOneStep` | crates/alacritty_terminal/src/vi_mode.rs:399-427 | One step on the grid is one step along the text, and the boundary test is true exactly at its end |
| `ViMode.SpaceIsSeen` | crates/alacritty_terminal/src/vi_mode.rs:408-414 | The blank test of a cell is that of its character in the flattened text |
| `ViMode.WordOnLineIsNearest` | crates/alacritty_terminal/src/vi_mode.rs:344-382 | The one-dimensional scan finds the nearest stop: no word end or start is skipped |
| `EventLoop.State.GotoNext` | crates/alacritty_terminal/src/event_loop.rs:427-430 | The next queued chunk becomes current, from its first byte |
| `EventLoop.State.EnsureNext` | crates/alacritty_terminal/src/event_loop.rs:420-425 | A chunk is current whenever one is queued; the unsent bytes stay the same |
| `EventLoop.BusyIffUnsent` | crates/alacritty_terminal/src/event_loop.rs:437-440 | Without empty chunks the queue needs writing exactly if bytes are unsent; and exactly which queues need writing with nothing to send |
| `EventLoop.WriteChunk` | crates/alacritty_terminal/src/event_loop.rs:186-208 | However a chunk is written in pieces, refused or failed: bytes accepted, rest of the chunk and queue stay the same bytes in the same order; an empty chunk is always put back |
| `EventLoop.PtyWrite` | crates/alacritty_terminal/src/event_loop.rs:182-211 | It terminates, bytes accepted followed by bytes unsent are unchanged, so are bytes accepted followed by those before the first empty chunk, and it stops early only when the PTY refused |
| `EventLoop.PeekableReceiver.Notification` | crates/alacritty_terminal/src/event_loop.rs:346-359 | A sender never queues an empty chunk |
| `EventLoop.PeekableReceiver.Peek` | crates/alacritty_terminal/src/event_loop.rs:482-488 | Peeking keeps the sequence of messages and shows the one the next receive delivers |
| `EventLoop.PeekableReceiver.Recv` | crates/alacritty_terminal/src/event_loop.rs:490-499 | Delivers exactly the next message of that sequence, whether or not it was peeked |
| `EventLoop.DrainRecvChannel` | crates/alacritty_terminal/src/event_loop.rs:100-110 | Every available message is delivered once, in order, up to the first shutdown; input goes to the write queue, sizes to the PTY |
| `EventLoop.InputAfterEmptyIsStuck` | crates/alacritty_terminal/src/event_loop.rs:346-359 | In every state of the loop in which an empty input was delivered, at most the input before it has been sent, and all input after it is still pending |
| `EventLoop.EmptyInputBlocksTheRest` | crates/alacritty_terminal/src/event_loop.rs:346-359 | Once [1], an empty input and [2] were delivered, only a beginning of [1] is sent, whatever follows |
| `EventLoop.PtyRead` | crates/alacritty_terminal/src/event_loop.rs:113-179 | What the terminal got and what was lost is what the call's script of answers and lock attempts leads to; it returns normally only when the PTY had nothing more or MAX_LOCKED_READ bytes were parsed; fewer than MAX_LOCKED_READ + READ_BUFFER_SIZE bytes are parsed; the lock was found taken at most as often as there is contention, for which it terminates |
| `EventLoop.LostExactly` | crates/alacritty_terminal/src/event_loop.rs:129-171 | For every script: bytes parsed followed by bytes lost are the bytes read, and bytes are lost if and only if a read fails after some were read and the lock was found taken ever since, with room left in the buffer |
| `EventLoop.HangUpLosesBytes` | crates/alacritty_terminal/src/event_loop.rs:131-156 | A script that loses three bytes |
| `EventLoop.FedAllExactly` | crates/alacritty_terminal/src/event_loop.rs:113-179 | Over any number of calls the terminal was fed everything that was read if and only if no call lost bytes |
| `EventLoop.EventLoop.UpdateInterest` | crates/alacritty_terminal/src/event_loop.rs:318-327 | Before the next poll, the registered write interest is what the write queue needs |
| `EventLoop.EventLoop.Handle` | crates/alacritty_terminal/src/event_loop.rs:265-316 | An event keeps the loop's invariant; it reads exactly if the PTY is readable or is drained at exit, writes only if it is writable and then until nothing is left or the PTY refuses, and ends the loop exactly on exit, on failed writes and on failed reads that are no hang-up |
| `EventLoop.EventLoop.HandleAll` | crates/alacritty_terminal/src/event_loop.rs:265-316 | All events of a poll are handled in order; the loop goes on exactly as long as no event ended it, and ends with the last handled one having done so |
| `EventLoop.EventLoop.Work` | crates/alacritty_terminal/src/event_loop.rs:260-327 | Every message that arrived is delivered, then every event handled, then the write interest is right; the loop ends only after a shutdown, before any event, or after an event that ends it |
| `EventLoop.EventLoop.Turn` | crates/alacritty_terminal/src/event_loop.rs:235-328 | One round from poll to poll, over interrupted polls and timeouts, keeps the whole invariant, and ends the loop only for a failed poll, a shutdown, or an event that ends it |
| `EventLoop.EventLoop.Run` | crates/alacritty_terminal/src/event_loop.rs:213-335 | Over any run, with any messages: at every poll the registered interest was right, messages were delivered each once and in order up to the first shutdown, and the bytes the PTY accepted are a beginning of the input delivered before the first empty one; all events of all polls are handled in order, and the run ends early only after a failed poll, a shutdown, or an event that ends the loop |
| `FairMutex.StepKeepsInv` | crates/alacritty_terminal/src/sync.rs:31-51 | Every atomic step of every call keeps the ownership of both mutexes consistent |
| `FairMutex.MutualExclusion` | crates/alacritty_terminal/src/sync.rs:11-52 | In every reachable state each mutex has at most one holder |
| `FairMutex.LockGoesThrough` | crates/alacritty_terminal/src/sync.rs:36-41 | Alone, lock() holds the first mutex, then both, then the data only, and dropping the guard frees it |
| `FairMutex.UnfairLockGoesThrough` | crates/alacritty_terminal/src/sync.rs:43-46 | lock_unfair() gets the data whoever holds the first mutex |
| `FairMutex.LeaseGoesThrough` | crates/alacritty_terminal/src/event_loop.rs:125-155 | Under a lease, trying or waiting for the data leads to holding both mutexes, and both are given back |
| `FairMutex.BlocksExactlyWhileTaken` | crates/alacritty_terminal/src/sync.rs:31-51 | Every acquisition blocks exactly while its mutex is taken; trying fails exactly then and changes nothing |
| `FairMutex.ReservationIsHonoured` | crates/alacritty_terminal/src/sync.rs:31-41 | From when a thread holds the first mutex until it gets the data or gives up, no other thread gets the data through lock() |
| `FairMutex.ReservationEnds` | crates/alacritty_terminal/src/sync.rs:31-41 | The first mutex is given up only by its holder: in lock() once it has the data, or by dropping its lease |
| `FairMutex.CanBePassed` | crates/alacritty_terminal/src/sync.rs:7-10 | From every consistent state, any other thread can pass a thread that holds neither mutex any number of times before that thread moves |
| `FairMutex.SafeExactlyWhileHolding` | crates/alacritty_terminal/src/sync.rs:7-10 | In every reachable state a thread cannot be passed before its next step if and only if it holds one of the mutexes |
| `FairMutex.SafeOnceReserved` | crates/alacritty_terminal/src/sync.rs:36-41 | Inside lock(), before it has the data, that is if and only if it holds the first mutex |
| `FairMutex.WaitingIsNotEnough` | crates/alacritty_terminal/src/sync.rs:7-10 | Two threads, one of which is passed k times while it waits |
| `FairMutex.NoDeadlock` | crates/alacritty_terminal/src/event_loop.rs:125-155 | In every reachable state in which a call is under way, some call can go on |
| `FairMutex.AllCallsCanFinish` | crates/alacritty_terminal/src/sync.rs:31-51 | From every reachable state all calls under way can finish, leaving both mutexes free |
| `FairMutex.CallsFinishInBoundedSteps` | crates/alacritty_terminal/src/sync.rs:31-51 | However they are interleaved, calls under way take at most a fixed number of steps |
| `PermitPool.PoolState.constructor` | crates/gpui_common/src/limiter.rs:37-48 | A new pool has its size clamped to 1 to 15 and nothing in use |
| `PermitPool.PoolState.GrantWaiters` | crates/gpui_common/src/limiter.rs:96-105 | The popping loop is the recursive grant of the specification |
| `PermitPool.GrantServesFirstLive` | crates/gpui_common/src/limiter.rs:96-105 | Granting serves exactly the first live waiters, as many as there is room for, in order, and leaves none waiting while there is room |
| `PermitPool.PoolState.SetMax` | crates/gpui_common/src/limiter.rs:58-66 | Resizing clamps, and grants only if the size changed |
| `PermitPool.SizeIsClamped` | crates/gpui_common/src/limiter.rs:37-66 | The size after a resize, and of a new pool, is the number asked for, at least 1 and at most 15 |
| `PermitPool.OnlyResizesChangeTheSize` | crates/gpui_common/src/limiter.rs:28-105 | No other step changes it |
| `PermitPool.PoolState.TryAcquire` | crates/gpui_common/src/limiter.rs:68-80 | Takes a permit if there is room, queues up otherwise |
| `PermitPool.PoolState.Release` | crates/gpui_common/src/limiter.rs:28-34 | Returns a permit and grants the waiters there is room for |
| `PermitPool.StepKeepsInv` | crates/gpui_common/src/limiter.rs:28-105 | Every step (acquire, receive, cancel, drop, resize) keeps conservation, the queue's contents, first come first served, and no lost wakeup |
| `PermitPool.ReachableKeepsInv` | crates/gpui_common/src/limiter.rs:28-105 | So the invariant holds in every reachable state of any number of clients |
| `PermitPool.DropPermitKeepsInv` | crates/gpui_common/src/limiter.rs:28-34 | Dropping a permit keeps the invariant, and the saturating subtraction never saturates |
| `PermitPool.NoRetry` | crates/gpui_common/src/limiter.rs:82-87 | A live waiter never takes the retry path |
| `PermitPool.NoBarging` | crates/gpui_common/src/limiter.rs:68-80 | In every reachable state the fast path is open only when nobody waits |
| `PermitPool.ServedInOrder` | crates/gpui_common/src/limiter.rs:96-105 | Of two clients that queued, the earlier one is served first unless it gave up |
| `PermitPool.GrowsOnlyBelowMax` | crates/gpui_common/src/limiter.rs:58-105 | No step raises the count above the pool's size, even after a shrink |
| `PermitPool.QuietPoolCountsLostTokens` | crates/gpui_common/src/limiter.rs:82-92 | With no permit in use and no token on its way, the count is the number of lost tokens, and an acquire succeeds at once exactly if that is below the size |
| `PermitPool.LostTokenBlocksPool` | crates/gpui_common/src/limiter.rs:82-92 | A reachable pool of size 1 in which nobody holds a permit and a client waits |
| `LostTokens.StepStaysBlocked` | crates/gpui_common/src/limiter.rs:28-105 | With as many tokens lost as there are permits, every step but a resize keeps it so, sends no token and gives no permit at once |
| `LostTokens.RunStaysBlocked` | crates/gpui_common/src/limiter.rs:28-105 | So does every run without a resize |
| `LostTokens.WaitingIsServed` | crates/gpui_common/src/limiter.rs:28-105 | With fewer lost, receiving tokens and dropping permits serves any waiting client in the end |
| `LostTokens.ServedExactlyIfFewLost` | crates/gpui_common/src/limiter.rs:82-92 | In every reachable state a waiting client can be served without a resize if and only if fewer tokens were lost than the pool has permits |
| `LostTokens.OneLossBlocksForGood` | crates/gpui_common/src/limiter.rs:82-92 | A reachable pool of size 1 with no permit in use whose waiting client no run without a resize serves |
| `History.History.IncVersion` | crates/gpui_dock/src/history.rs:74-82 | The version grows exactly if no group is open and the interval has passed |
| `History.History.Push` | crates/gpui_dock/src/history.rs:88-103 | The stacks after a push: the oldest change goes when the stack is full, the redo stack stays |
| `History.PushIsRecorded` | crates/gpui_dock/src/history.rs:88-103 | The pushed change is on top with its version, and what else was on the stacks stays, but for the oldest change and, in a unique history, equal ones |
| `History.WithoutConcat` | crates/gpui_dock/src/history.rs:95-98 | A unique history drops exactly the equal entries and keeps the order of the others |
| `History.History.Undo` | crates/gpui_dock/src/history.rs:118-137 | The popping loop moves exactly the top group to the redo stack and returns it from the top |
| `History.History.Redo` | crates/gpui_dock/src/history.rs:139-157 | The same from the redo stack to the undo stack |
| `History.TopGroupIs` | crates/gpui_dock/src/history.rs:118-157 | The popped group is everything down to the lowest entry of the top's version |
| `Tiles.Tiles.BringToFront` | crates/gpui_dock/src/tiles.rs:534-561 | The tile becomes the last one and its old and new places are recorded; unknown tiles change nothing |
| `Tiles.Tiles.ChangeBounds` | crates/gpui_dock/src/tiles.rs:371-491 | The tile gets the bounds and the old ones are recorded; equal bounds record nothing |
| `Tiles.RaisedTileIsLast` | crates/gpui_dock/src/tiles.rs:534-561 | After bringing a tile to the front it is the last one, the others keep their order, and one change with both places was pushed |
| `Tiles.ResizedTileHasBounds` | crates/gpui_dock/src/tiles.rs:371-491 | After a change of bounds the tile has them, no other tile changed, and one change was pushed, or nothing if they were the same |
| `Tiles.UnknownTileChangesNothing` | crates/gpui_dock/src/tiles.rs:371-561 | Edits of tiles that are gone change nothing |
| `Tiles.Tiles.RestoreTile` | crates/gpui_dock/src/tiles.rs:564-588 | One recorded change replayed: bounds first, then the place |
| `Tiles.RestoredTile` | crates/gpui_dock/src/tiles.rs:564-615 | The replayed tile has the bounds and the place of the change, and the other tiles keep their order |
| `Tiles.Tiles.Undo` | crates/gpui_dock/src/tiles.rs:564-588 | The loop replays the popped group backwards onto the tiles |
| `Tiles.Tiles.Redo` | crates/gpui_dock/src/tiles.rs:591-615 | The loop replays the popped group forwards onto the tiles |
| `Tiles.EditIsReversible` | crates/gpui_dock/src/tiles.rs:371-561 | A recorded change leads from the old layout to the new one and back, exactly |
| `Tiles.DoKeepsValid` | crates/gpui_dock/src/tiles.rs:534-615 | Whatever is done in whatever order, ids stay unique, no tile is lost and recorded places exist |
| `Tiles.UndoGoesBack` | crates/gpui_dock/src/tiles.rs:564-588 | Undo goes to the previous version boundary of the timeline of layouts |
| `Tiles.RedoGoesForward` | crates/gpui_dock/src/tiles.rs:591-615 | Redo goes to the next version boundary |
| `Tiles.MovesAreACursor` | crates/gpui_dock/src/tiles.rs:564-615 | Any sequence of undos and redos shows the layout under a cursor that walks the boundaries |
| `Tiles.UndoRedoRoundTrip` | crates/gpui_dock/src/tiles.rs:564-615 | Undoing k groups gives the layout of that boundary; redoing k restores tiles, both stacks and the version |
| `StaleRedos.StepExact` | crates/gpui_dock/src/history.rs:88-157 | One operation: the canvas stays one that clears its redo stack at each change, with stale entries below, if and only if it redoes no stale entry |
| `StaleRedos.RunOver` | crates/gpui_dock/src/history.rs:88-157 | So does a whole run that redoes no stale entry; it shows and records the same layouts |
| `StaleRedos.RoundTripAfterAnyRun` | crates/gpui_dock/src/history.rs:88-157 | After any such run, however often it changed things after undoing: k undos show the layout of that boundary, which was really there, and k redos that redo no stale entry restore everything |
| `StaleRedos.DistinctVersionsAreFresh` | crates/gpui_dock/src/history.rs:139-157 | A redo of live entries redoes no stale one if they share no version |
| `StaleRedos.ChangeUndoChangeUndo` | crates/gpui_dock/src/history.rs:88-157 | Change, undo, change, undo leads to the first layout, and one redo to the second change |
| `StaleRedos.UndoEverythingAfterAnyRun` | crates/gpui_dock/src/history.rs:88-157 | If at most max_undos changes were recorded, undoing everything gives the first layout |
| `StaleRedos.RoundTripAfterRun` | crates/gpui_dock/src/history.rs:88-157 | After a run that changes nothing while something can be redone: k undos show exactly the layout of k groups ago among the last ones recorded, and k redos restore everything |
| `Tiles.RedoAfterChangeIsStale` | crates/gpui_dock/src/history.rs:88-103 | A change made after an undo leaves a redo that overwrites it and cannot be undone |
| `Tiles.RedoIsUndoneExactly` | crates/gpui_dock/src/tiles.rs:564-615 | Undoing a redone change gives the layout back exactly if the layout showed the change's old values |
| `GroupRedos.GroupRedoIsUndoneExactly` | crates/gpui_dock/src/tiles.rs:564-615 | A recorded group of any number of changes, redone on any layout of the same tiles, is undone again if and only if each change finds the values it replaced |
| `GroupRedos.CurrentGroupIsUndone` | crates/gpui_dock/src/tiles.rs:564-615 | Entries of any origin that share a version and are redone together are undone again if each change finds the values it replaced |
| `GroupRedos.StaleGroupIsNotUndone` | crates/gpui_dock/src/history.rs:118-157 | The same for documents: redo then undo restores tiles, stacks and version if and only if each change of the redone group finds the values it replaced and no entry to be undone shares the group's version |
| `GroupRedos.SharedVersionIsNotUndone` | crates/gpui_dock/src/history.rs:74-103 | Change, undo and another change within the group interval: redo and undo take both changes back |
| `GroupRedos.StaleDrag` | crates/gpui_dock/src/tiles.rs:371-425 | A drag recorded in two steps that is not undone after being redone elsewhere |
| `FishProbe.StripFishNewlineProbes` | termua/src/cast_player.rs:70-104 | The result is the plain left-to-right scanner's; a new text is made exactly if the text changes, which is exactly if it holds a probe |
| `FishProbe.StripProbes` | termua/src/cast_player.rs:77-95 | The same loop for any marks whose prefix does not overlap itself |
| `FishProbe.FishMarksAreValid` | termua/src/cast_player.rs:71-72 | The shell's prefix does not overlap itself and its suffix does not start with a space |
| `FishProbe.ProbeEndIsExact` | termua/src/cast_player.rs:77-94 | The scanner drops at a position exactly the prefix, one or more spaces and the suffix, if they stand there |
| `FishProbe.FirstSuffixDecides` | termua/src/cast_player.rs:80-86 | Looking only at the first suffix after a prefix decides whether a probe starts there |
| `FishProbe.NoProbeInside` | termua/src/cast_player.rs:91-93 | Jumping past a whole prefix skips no probe |
| `FishProbe.NothingLeft` | termua/src/cast_player.rs:77-82 | Stopping at the first missing prefix or suffix misses no probe |
| `FishProbe.UnchangedIffNoProbe` | termua/src/cast_player.rs:96-103 | A text is left as it is exactly if it holds no probe |
| `Fences.ExtractFencedCodeBlocks` | termua/src/assistant.rs:313-359 | The loop returns the trimmed blocks of the text's document; the early return for blank texts changes nothing |
| `Fences.StripFencedCodeBlocks` | termua/src/assistant.rs:361-397 | The loop returns the trimmed prose of the same document, up to the first block that is not closed |
| `Fences.LineEnd` | termua/src/assistant.rs:326-335 | The inner loop finds the end of the tag's line |
| `Fences.PrintOfScan` | termua/src/assistant.rs:319-356 | Printing what was read gives the text back: the pieces partition it |
| `Fences.ScanOfPrint` | termua/src/assistant.rs:319-356 | Reading a printed well-formed document gives the document back |
| `Fences.ScanIsWellFormed` | termua/src/assistant.rs:319-356 | Whatever is read is well formed: no fence in prose or bodies, no newline in tags, the tail never closed |
| `Fences.ReadsBackExactly` | termua/src/assistant.rs:313-397 | A document is read back from its print if and only if it is well formed |
| `Fences.PlainIsReadBack` | termua/src/assistant.rs:313-397 | From prose and bodies without backticks and one-line tags, the readers report exactly the document's trimmed blocks and its prose |
| `Fences.FirstBlockIsReported` | termua/src/assistant.rs:313-397 | Of a text that begins with a closed block, the block is reported with its trimmed body and tag unless the body is blank, the prose before it is kept, and then the rest is read |
| `Fences.NoBlockIsReported` | termua/src/assistant.rs:313-397 | Of a text without a closed block, no block is reported, and the prose up to a fence that is never closed |
| `Keymap.App.ApplyTerminalBinding` | termua/src/settings.rs:950-996 | The appended bindings and the remembered override are those of the specification; invalid and unchanged overrides append nothing |
| `Keymap.App.ApplyTerminalKeybindings` | termua/src/settings.rs:795-865 | Applying the settings of all actions is the run of their edits in turn |
| `Keymap.OverridesAfterSettings` | termua/src/settings.rs:795-865 | After applying all settings, each action's override is its trimmed text, none if that is blank, and unchanged if it stands for no key |
| `Keymap.EveryActionIsEdited` | termua/src/settings.rs:795-865 | There is one edit for each action, in order |
| `Keymap.OverrideAfterEdit` | termua/src/settings.rs:956-975 | A missing or blank text clears the override, a text that stands for a key becomes it, and any other text, or one that asks for what is there, changes nothing |
| `Keymap.EffectiveAfterSetting` | termua/src/settings.rs:977-990 | After an override is set, its key does the action, the action's default keys and its former key do nothing, and all others what they did |
| `Keymap.EffectiveAfterClearing` | termua/src/settings.rs:990-995 | After an override is cleared, the default keys do the action, the former key nothing, and all others what they did |
| `Keymap.EffectiveAfterEdit` | termua/src/settings.rs:973-995 | What every key does after an edit: the action's new keys do the action, its other touched keys nothing, all others what they did |
| `Keymap.EditExact` | termua/src/settings.rs:950-996 | An edit keeps the log equivalent to the map from actions to keys if and only if it binds no key of another action |
| `Keymap.RunExact` | termua/src/settings.rs:950-996 | Along a whole run the log behaves like the map if and only if no edit clashes |
| `Keymap.EndExact` | termua/src/settings.rs:795-996 | At the end of a run the log behaves like the map if and only if every key an action ends up with was touched last by that action |
| `Keymap.SwappedKeysFail` | termua/src/settings.rs:795-996 | Swapping two actions' keys in one application leaves one of them without its key |
| `Keymap.OwnedRunRefines` | termua/src/settings.rs:950-996 | With keys shared out among the actions, every run keeps each action's keys exactly its override, or exactly its defaults |
| `Keymap.InitiallyRefines` | termua/src/settings.rs:868-916 | Before any edit, with disjoint defaults, the log is the map |
| `Keymap.ClearingDoesNotGiveBack` | termua/src/settings.rs:973-995 | Setting and clearing an override that is another action's key leaves that action without a key |
| `Suggestions.Builder.MergeSuggestions` | termua/src/static_suggestions.rs:146-180 | The nested loops that update the maps in place are the merge of the specification |
| `Suggestions.MergeKeepsFirstLongest` | termua/src/static_suggestions.rs:41-45 | After merging any files, each example's description is the first longest one offered for it, and there are no other examples |
| `Suggestions.MergeIsFiled` | termua/src/static_suggestions.rs:162-165 | Every example starts with the command it is filed under |
| `Suggestions.RowsListDb` | termua/src/static_suggestions.rs:47-60 | Every database has an ordered listing that holds exactly its examples |
| `Suggestions.ForEachCandidate` | termua/src/static_suggestions.rs:67-101 | The calls are, in order, all examples of the commands that start with the word, cut at 500; for one character, those of just that command; for none, nothing |
| `Lookups.LookupIsExact` | termua/src/static_suggestions.rs:67-101 | The calls are exactly the offers of all files under the matching commands, in the order of command and then example, and cut after 500 unless the word is a single character |
| `Lookups.OneExampleOffers` | termua/src/static_suggestions.rs:155-172 | An example is offered under its command if it is not blank and starts with it, with its trimmed description |
| `Lookups.FilesInTurn` | termua/src/static_suggestions.rs:41-45 | Files offer theirs one after the other |
| `Lookups.ExamplesInTurn` | termua/src/static_suggestions.rs:157-178 | So do the examples of a file |
| `Suggestions.ScanIsPrefixFilter` | termua/src/static_suggestions.rs:88-91 | A key is in the scanned range if and only if it starts with the word and is not the word, the last code point and more text |
| `Suggestions.ScanByBytes` | termua/src/static_suggestions.rs:88-91 | The scanned range is the one between the bytes of the word and those of the word with the last code point |
| `Utf8.BytesKeepOrder` | termua/src/static_suggestions.rs:88-91 | Comparing two texts by their bytes is comparing them by their code points |
| `Utf8.BytesKeepPrefixes` | termua/src/static_suggestions.rs:162-165 | A text begins with another in bytes if and only if it does in code points |
| `Utf8.EncodedIsInjective` | termua/src/static_suggestions.rs:41-45 | Different texts have different bytes |
| `Utf8.EncodeIsTheTable` | termua/src/static_suggestions.rs:173-174 | The number of bytes of a code point, their ranges, and the code point their payloads spell |
| `Suggestions.LastCodePointIsMissed` | termua/src/static_suggestions.rs:88-91 | A file that offers a command starting with the word, for which the lookup yields nothing |
| `Suggestions.SelectedIffOffered` | termua/src/static_suggestions.rs:41-101 | A candidate is selected if and only if some file offers it under a selected command, with the first longest description, or none if that is empty |
| `Suggestions.CandidatesStartWithWord` | termua/src/static_suggestions.rs:67-101 | For any files and any word, every candidate starts with the trimmed word |

## Left out

- Semantic and line selections, bracket and semantic motions: they rest on searches of the terminal's text that are not part of this model.
- Wide cells: `ViMode` assumes there are none, so expanding a point to a wide cell is the identity.
- The vi motions to the first occupied cell, to paragraphs and to the screen's rows: they would add easy members.
- Integer widths: indices and counts are unbounded, so overflow of a line number or a length is not modelled.
- Grids with fewer lines in total than on the screen: `Grid.Dimensions` asks for at least the screen's lines, which the terminal always has.
- EventLoop.Handle: does not model the wakeup and exit notifications sent to the window, nor the parser's count of synchronized bytes, which only decide whether to redraw.
- EventLoop.PtyRead: does not model the copy of the bytes to a recording file; lock contention is a number of failed tries before the lock is had.
- EventLoop.EventLoop.Turn: does not model a failing registration or re-registration with the poller, at which the program stops.
- ScrolledSelections.RotationIsSoundAnywhere: is stated for regions of the screen and anchors not below it, which is what scrolling passes; resizing, where the region is the larger of the two screens, has `ScrolledSelections.ResizeFollowsContent`.
- FairMutex.StepKeepsInv: does not model threads that lock the data through the unfair calls while they hold a lock on it already, which the types do not forbid and which would block for good.
- PermitPool.PoolState.Release: does not model a poisoned lock, after which the program panics.
- History.History.Push: asks for room for at least one change; with none the code removes from an empty vector and panics.
- Tiles: adding and removing tiles, snapping, minimum sizes, rounding to the theme's grid and the coarse record on mouse release; bounds are values that are stored and compared.
- StaleRedos.RoundTripAfterAnyRun: says nothing about runs that redo stale entries; what one such redo and the undo after it do is in `GroupRedos`.
- GroupRedos.StaleGroupIsNotUndone: is stated for a redone group recorded change by change; for a popped group in which entries of different origin share a version, `GroupRedos.CurrentGroupIsUndone` has only the one direction.
- FishProbe: texts are sequences of code points, not bytes; the marks are whole code points, so the matches are the same.
- Fences: the derivation of runnable commands from the blocks, and the cleaning of assistant replies.
- Keymap: parsing of keystrokes and of contexts; a parser is a parameter that gives the key a text stands for. All bindings are in one context.
- Keymap.App.constructor: binds the defaults itself; in the program the terminal view does so at its start.
- Suggestions: reading directories and JSON files, and skipping files that fail to parse; the model starts from parsed entries.
- Suggestions.ForEachCandidate: collects the callback's calls in a sequence.
- Menus, themes, locale, key chain, serial ports, update checks, docks and panels: user interface, foreign calls and bookkeeping without rules to prove.
