# Books from a market-data stream: a verified model

This project models, in Dafny, the market-data half of an ITCH 5.0 trading system: the order book engine
that folds order messages into per-symbol books, and the MoldUDP64 sender and receiver that carry those
messages. It proves that each fast data structure is the simple one it stands for, that the structures stay
in step with one another over every run, and that books built from packets are the books built from the file.

The program's objects are classes here, with the same fields and the same loops, and each method is proved
against a specification on values; the properties of those specifications are lemmas.

| files | what they hold |
|---|---|
| `Words`, `Wrappers`, `Bytes`, `SortedMap` | widths and word operations, big-endian fields, ordered iteration of a map |
| `FlatHashMap` | the order index: open addressing, backward-shift deletion, doubling |
| `Ladder`, `LadderScan`, `LadderOps`, `LadderMerge`, `PriceLevels` | one side of a book: a moving window of cent cells, a bitmap, a cached best, an overflow map |
| `BookSpec`, `BookSides`, `BookCheck`, `OrderBook` | one book: the index and two sides kept in step, and the full check |
| `Itch`, `Streams`, `BookSet`, `Replay`, `FeedHandler` | messages, the table of books, the plain walk and the audited walk over a file |
| `Framing`, `Mold`, `Packer`, `DecoderSpec`, `Decoder`, `DecoderCases` | length-prefixed framing, packets, the receiving state machine and packets that show its corners |
| `Lossy`, `Arrivals`, `Replayer`, `Wire` | dropped, repeated and reordered packets, the sending program, and the join of both halves |

The main results, in order of difficulty:

- The index behaves as a map. The loop that moves the hole on deletion ends, removes exactly one key and leaves
  every other key reachable, for any hash function.
- A side behaves as one table from price to (shares, orders), also when an add or a remove moves the window.
- In every book each level is the sum and count of the live orders at its side and price, so no subtraction
  goes below zero and no total wraps; the full check decides exactly whether index and sides agree.
- The receiver's deliveries and gaps tile the sequence numbers over any packets whatever; over a sender's
  packets, however lost, repeated or reordered, what it delivers and what it reports lost is known exactly.
- From raw bytes to levels: what a message asks for by its bytes happens to one level, or two for a replace, of one
  book; and each column of the audit is what the books lost or gained by messages of its types.
- Packets are filled in order, and no other division of the same messages uses fewer.
- Share conservation over any stream and all books, with the exact condition under which it holds.
- Books and counters built from the wire equal those that the plain walk builds from the file, for every
  payload limit that every message fits; and the audited walk computes the same books and counters.

## Where the program does not do what its text says

Each point has the exact condition as a theorem, and an input on which the text fails.

- `src/book/price_levels.cc:115-117` says that after a re-centring the best level is in the array. A level at a
  sub-penny price can be better than the new centre (`PriceWindow.SubPennyShadow`). The array holds the best
  exactly when the window around the new centre reaches the best price (`PriceWindow.PriceLevels.Rebase`), and
  with whole-cent prices only it always does, in every book (`Book.OrderBook.Add`). `best()` is right in every case.
- `src/book/order_book.cc:130-147` means a replace to be all or nothing. A replace of a live order that names
  reference 0 removes it and is then refused (`BookSpec.ZeroReferenceLosesOrder`). That is the only case
  (`BookSpec.ReplaceAllOrNothing`), and the only way share conservation fails (`Streams.ConservedExactly`).
- The full check of a book rejects a level whose orders hold no shares, which an add with zero shares makes
  (`Book.ZeroSharesFailCheck`). On a valid book that is the only way it fails (`Book.OrderBook.CheckInvariants`).
  The check of one side passes some states that are not sound: shares left in a free cell are not looked at
  (`PriceWindow.StaleSharesPass`, `PriceWindow.PassesExactly`).
- `src/mold/decoder.h:32-34` says that an end-of-session marker advances nothing. It moves the expected number
  (`DecoderCases.MarkerAdvances`) exactly when it names a number past it (`DecoderSpec.MarkerAdvancesNothingExactly`).
- `src/mold/decoder.h:36-41` has a malformed packet rejected whole. Its header can still start or switch the
  session (`DecoderCases.RejectedSwitches`); a rejected packet changes nothing but its counter exactly when its
  header opens no session (`DecoderSpec.RejectedChangesNothingExactly`).

What follows is what the code does as it means to, and worth knowing:

- `src/mold/decoder.cc:40-45` restarts the sequence from the number of another session's packet. What is ignored as
  a duplicate is then what lies behind that number, not what was delivered before. So one stray header makes messages
  repeat, with no gap and no duplicate counted (`DecoderCases.StrayHeaderRepeats`). A packet covers a number that was
  covered before exactly when it opens another session, its blocks are delivered, and their numbers meet those that
  the session before it covered (`DecoderSpec.RepeatsExactly`); within a session none ever does.
- The 64-bit counters of the receiver account for every number of a session, also across a wrap
  (`DecoderSpec.SessionAccounting`, `DecoderCases.WrapAccounts`).

## Model

| member | source | states |
|---|---|---|
| FlatHashMap.OrderIndex.Insert | src/common/flat_hash_map.h:39-74 | inserting is map insertion of a new non-zero key; a key that is there, or 0, changes no entry; the table grows exactly when three quarters are taken, key 0 aside |
| FlatHashMap.OrderIndex.Find | src/common/flat_hash_map.h:77-93 | a slot is found exactly for live keys, and it holds that key's order |
| FlatHashMap.OrderIndex.Probe | src/common/flat_hash_map.h:60-68 | the probe loop ends, at the key or at the first empty slot of its walk, because a quarter of the table stays free |
| FlatHashMap.OrderIndex.SetShares | src/book/order_book.cc:64-65 | a store through the found order changes that one entry |
| FlatHashMap.OrderIndex.Erase | src/common/flat_hash_map.h:101-119 | erasing removes exactly that key, and reports whether it was live |
| FlatHashMap.OrderIndex.BackwardShift | src/common/flat_hash_map.h:187-212 | the moving-hole loop ends with unique, reachable keys and one entry fewer |
| FlatHashMap.CloseRound | src/common/flat_hash_map.h:190-210 | one round of the moving hole keeps every other key findable, whether the key looked at stays or moves, across the wrap of the ring |
| FlatHashMap.NoWalkOverHole | src/common/flat_hash_map.h:199-206 | when an empty slot follows, no probe walk to a live key passes the hole, so it can be blanked |
| FlatHashMap.WalkDecides | src/common/flat_hash_map.h:61-68 | a walk that ends at an empty slot proves the key absent; one that ends at the key gives its entry |
| FlatHashMap.StoreSound | src/common/flat_hash_map.h:69-72 | storing a new key where its walk ended keeps all keys unique and reachable and adds one entry |
| FlatHashMap.OrderIndex.FirstEmpty | src/common/flat_hash_map.h:236-240 | the walk of the rebuild loop ends at an empty slot |
| FlatHashMap.OrderIndex.Grow | src/common/flat_hash_map.h:216-244 | doubling keeps the map, places each key once, and leaves room for one more; capacity is 256 times a power of two |
| FlatHashMap.EntryCount | src/common/flat_hash_map.h:121-124 | the size is the number of live keys |
| Words.MaskIsModulo | src/common/flat_hash_map.h:156 | masking with a power of two less one is the remainder, so a key's home is its hash modulo the capacity |
| Words.MaskedStep | src/common/flat_hash_map.h:67 | a masked step leads from each slot to the next, and from the last to the first |
| Words.MaskedDifference | src/common/flat_hash_map.h:202-203 | a masked 64-bit difference, wrapped or not, is the number of steps forward around the ring |
| FlatHashMap.CapacityIsPower | src/common/flat_hash_map.h:218 | every capacity is a power of two, so the mask is right after any number of doublings |
| FlatHashMap.OrderIndex.HomeAfterHole | src/common/flat_hash_map.h:197-207 | the branchless test is true exactly when the key's home lies after the hole and no later than the key |
| Words.ClearLowest | src/book/price_levels.cc:133 | `word & (word - 1)` clears exactly the lowest set bit |
| Ladder.CellInverse | src/book/price_levels.cc:22-34 | a price has cell `c` exactly when it is the whole cent `base + c`, so cells and prices of a window are one to one |
| Ladder.SetBitAt | src/book/price_levels.cc:41-44 | setting the bit of a cell changes that cell's bit and no other |
| Ladder.ClearBitAt | src/book/price_levels.cc:46-49 | clearing the bit of a cell changes that cell's bit and no other |
| PriceWindow.PriceLevels.constructor | src/book/price_levels.cc:8-20 | a new side is sound and empty; a whole-cent reference price is the centre of its window, without one there is no window yet |
| PriceWindow.PriceLevels.ScanBest | src/book/price_levels.cc:51-79 | the highest occupied cell of a buy side, the lowest of a sell side, -1 for none |
| PriceWindow.PriceLevels.Place | src/book/price_levels.cc:95-111 | placing a level at a free price changes that price and no other, wherever it goes |
| PriceWindow.PriceLevels.Gather | src/book/price_levels.cc:118-136 | clearing lowest bits visits every occupied cell once, in order, and leaves no stale cell |
| PriceWindow.PriceLevels.PlaceAll | src/book/price_levels.cc:152-155 | every gathered level is back once all are placed, none lost or merged |
| PriceWindow.PriceLevels.TakeAll | src/book/price_levels.cc:118-142 | the gathered list is all levels, each once, and no cell is left stale |
| PriceWindow.PriceLevels.Recentre | src/book/price_levels.cc:143-150 | a sound and empty side around the new centre |
| LadderScan.GatheredDistinct | src/book/price_levels.cc:118-141 | no price occurs twice among the gathered levels |
| LadderScan.GatheredListed | src/book/price_levels.cc:118-141 | the gathered levels give the same aggregate at every price as the side did |
| PriceWindow.PriceLevels.Rebase | src/book/price_levels.cc:113-156 | moving the window changes no price's aggregate; the window is then centred on the given price, a whole-cent centre in it; the array holds the best exactly when the window reaches it |
| PriceWindow.PriceLevels.Add | src/book/price_levels.cc:158-202 | one price gains the shares and one order, no other price changes, also when the window moves; when it moves and where to; whole-cent sides keep their best in the array and every far level strictly worse |
| PriceWindow.PriceLevels.AddToFar | src/book/price_levels.cc:189-201 | the map branch, with the move of the window onto a new best |
| PriceWindow.PriceLevels.Reduce | src/book/price_levels.cc:204-218 | one price loses the shares and keeps its orders |
| PriceWindow.PriceLevels.Remove | src/book/price_levels.cc:220-269 | one price loses the shares and one order, and vanishes with its last order; nothing else changes, also when the window moves; whole-cent sides keep their best in the array |
| PriceWindow.PriceLevels.VacateCell | src/book/price_levels.cc:230-254 | a cell that loses its last order leaves no aggregate behind, with the cached best found again |
| PriceWindow.PriceLevels.FollowMarket | src/book/price_levels.cc:243-252 | following the market keeps the table; the window stands still, or moves to be centred on a best price that it did not reach; on whole-cent sides the best is back in the array |
| LadderOps.BestInArrayExactly | src/book/price_levels.cc:115-117 | the array holds the best, every far level strictly worse, exactly when the best price is a whole cent inside the window |
| LadderOps.MovedHoldsBest | src/book/price_levels.cc:115-117 | for any move of the window: the best is in the array exactly when the new window reaches the best price |
| PriceWindow.SubPennyShadow | src/book/price_levels.cc:115-117 | three adds, the last of which moves the window onto its price, after which the best is not in the array |
| PriceWindow.PriceLevels.BestLevel | src/book/price_levels.cc:271-291 | the best live level of the side with its aggregate, none exactly for an empty side |
| PriceWindow.PriceLevels.Levels | src/book/price_levels.cc:293-370 | every live level exactly once, strictly best first, with its aggregate |
| PriceWindow.PriceLevels.ArrayLevels | src/book/price_levels.cc:300-330 | the bit scans list exactly the occupied cells, best first |
| LadderMerge.MergedListsAll | src/book/price_levels.cc:350-369 | the merge of the two sorted lists is the sorted list of the whole side |
| PriceWindow.HeadIsBest | src/book/price_levels.cc:293-370 | the head of the list is the best level, and the list is empty only for an empty side |
| PriceWindow.PriceLevels.CheckInvariants | src/book/price_levels.cc:372-416 | on any state, sound or not: true exactly when every condition it lists holds |
| PriceWindow.PassesExactly | src/book/price_levels.cc:372-416 | sound and without hollow levels exactly when the check passes and nothing stale is left where it does not look |
| PriceWindow.StaleSharesPass | src/book/price_levels.cc:372-416 | a state that passes the check and is not sound |
| BookSpec.TallyInsert | src/book/order_book.cc:27-37 | a new order adds its quantity and one order at its own side and price only |
| BookSpec.TallyBound | src/book/order_book.cc:36-37 | no level holds more than the book, and the book at most its live orders times 2^31 - 1 |
| BookSides.SideGains | src/book/order_book.cc:27-34 | an add keeps its side the aggregate of the live orders |
| BookSides.SideReduced | src/book/order_book.cc:76-86 | a reduction, partial or fatal, keeps its side the aggregate of the live orders |
| BookSides.SideLoses | src/book/order_book.cc:110-113 | a removal keeps its side the aggregate of the live orders |
| Book.OrderBook.Add | src/book/order_book.cc:9-40 | a refused reference changes nothing; otherwise the level at its side and price gains the shares and one order, no other level and no other order changes, and index, sides and totals stay in step; whole-cent books keep both bests in their arrays |
| Book.OrderBook.Reduce | src/book/order_book.cc:42-94 | the order gives up the request, or all it holds if that is less, and dies at zero; its level loses just that, no other level changes; called clamped exactly when it gave up less than was asked |
| Book.OrderBook.Remove | src/book/order_book.cc:96-117 | removes the order, and its level loses all its quantity and one order and no other level changes; or reports it unknown |
| Book.OrderBook.Replace | src/book/order_book.cc:119-148 | an applied replace takes the original from its level and puts the new order on the same side at the new price; no level of the other side changes; a live new reference is refused up front |
| Book.AddFits | src/book/order_book.cc:25-37 | no level and no total wraps when an order is added |
| BookSpec.AddLaw | src/book/order_book.cc:9-40 | result and levels of an add: which is refused, and the one level that gains |
| BookSpec.ReduceLaw | src/book/order_book.cc:42-94 | result and levels of a reduction: what it takes, when it is clamped, when the order dies |
| BookSpec.RemoveLaw | src/book/order_book.cc:96-117 | result and levels of a removal: the one level that loses an order with its shares |
| BookSpec.ReplaceLaw | src/book/order_book.cc:119-148 | result and levels of a replace: the three refusals, the side kept, the old level and the new |
| BookSpec.ReplaceAllOrNothing | src/book/order_book.cc:130-147 | a replace is applied or changes nothing exactly unless it names reference 0 for a live order |
| BookSpec.ZeroReferenceLosesOrder | src/book/order_book.cc:142-147 | one such replace, which loses 100 shares |
| Book.OrderBook.BestBid | src/book/order_book.cc:150-153 | the highest buy price among live orders, with the true sum and count there |
| Book.OrderBook.BestAsk | src/book/order_book.cc:155-158 | the lowest sell price among live orders, with the true sum and count there |
| Book.OrderBook.SharesOf | src/book/order_book.cc:165-169 | the live quantity of a reference, 0 if it is not live |
| Book.OrderBook.RestingShares | src/book/order_book.cc:171-174 | the running total is the sum over the live orders |
| Book.OrderBook.CheckInvariantsFast | src/book/order_book.cc:192-195 | totals and counts agree, which they always do on a valid book |
| BookCheck.Rebuild | src/book/order_book.cc:242-251 | folding the index gives each side's sum and count per price |
| BookCheck.SideAgrees | src/book/order_book.cc:202-232 | true exactly when the stored side is what the orders make it and no level is hollow |
| BookCheck.AgreeExactly | src/book/order_book.cc:211-230 | equal sizes and matching entries are enough: the stored side then matches the orders at every price |
| Book.OrderBook.CheckInvariants | src/book/order_book.cc:235-254 | decides, for an index and sides that need not agree, whether they do; on a valid book it fails only for a hollow level |
| Book.ZeroSharesFailCheck | src/book/order_book.cc:217-220 | one add with zero shares, after which the full check fails |
| BookSpec.ZeroSharesHollow | src/book/order_book.cc:217-220 | an order without shares, alone at its price, makes a hollow level |
| BookSides.HollowLevels | src/book/order_book.cc:217-220 | stored levels are never hollow exactly when the orders make no hollow level |
| BookTable.NeverHollow | src/book/book_set.cc:78-96 | when every new order brings shares, no stream of messages makes any book fail the full check |
| BookTable.BookSet.OnStockDirectory | src/book/book_set.cc:5-25 | makes room, stores the symbol at its locate and no other, counts a locate once, and leaves every book as it was; new books are empty |
| Streams.RegisteredIsKnown | src/book/book_set.cc:16-24 | over any stream the number of symbols is the number of known locates; a repeat is not counted twice |
| BookTable.BookSet.Route | src/book/replay.cc:85-123 | the book of the locate changes as the action says, level by level, with the result answered; every other book stands |
| BookTable.BookSet.RestingShares | src/book/book_set.cc:56-64 | the 64-bit sum over all books |
| BookTable.BookSet.CheckInvariants | src/book/book_set.cc:78-96 | true exactly when no registered book has a hollow level |
| Replays.ApplyMessage | src/book/replay.cc:37-126 | a message that by its bytes asks for an action on a known locate has that effect on that one book; a directory message registers its locate; the eight counters follow |
| Itch.ReadAsSaid | src/itch/decoder.cc:50-127 | a message moves a book exactly as its bytes say: type, reference, side, shares and price each at their offset, most significant byte first |
| Itch.HeaderSaid | src/itch/decoder.cc:22-39 | the locate stands in bytes 1 and 2, the stock symbol in bytes 11 to 18 |
| Streams.MessageEffect | src/book/replay.cc:81-126 | from the bytes of a message to the levels of the one book it changes, and to the one result it is counted under |
| Streams.NoEffect | src/book/replay.cc:37-83 | any other message, and one on an unknown locate, changes no book and counts no result |
| Streams.DirectoryEffect | src/book/book_set.cc:5-25 | registering a locate: its symbol, its place, one more symbol if it is new; nothing else |
| Replays.Replay | src/book/replay.cc:128-140 | books and counters of a whole buffer are the fold over its frames |
| Streams.ShortStreamsRoomy | src/book/level.h:16-18 | a message adds one order at most, so fewer than 2^32 - 1 messages leave room for every order count |
| Replays.SmallFilesRoomy | src/book/replay.cc:128-140 | empty books have room for every file below three times 2^32 - 1 bytes |
| Streams.ActConserves | apps/feed_handler/main.cc:136-224 | one action moves a book's total by what the audit notes, less what a replace with reference 0 loses |
| Streams.Conservation | apps/feed_handler/main.cc:276-282 | over any stream and all books: resting plus lost shares are added minus executed minus cancelled minus deleted |
| Streams.ConservedExactly | apps/feed_handler/main.cc:276-282 | shares are conserved exactly when no replace lost an order with shares |
| Streams.NoZeroReplaceConserves | apps/feed_handler/main.cc:276-282 | a stream that never replaces with reference 0 conserves shares |
| FeedHandling.AuditReduction | apps/feed_handler/main.cc:156-188 | what the total of the book lost is entered under executed for an execution and under cancelled for a cancel, clamped or not; the other columns stand |
| FeedHandling.AuditMessage | apps/feed_handler/main.cc:110-239 | one audited message has the books and counters of the plain dispatch, and the fast check passes |
| FeedHandling.Walk | apps/feed_handler/main.cc:110-251 | the exit on the fast check is never taken, that of a debug build at the first sampled message with a hollow level; books, counters and counts by type are those of the messages read |
| FeedHandling.NeverStops | apps/feed_handler/main.cc:243-250 | when every new order brings shares, no sampled check stops the loop |
| FeedHandling.Conserved | apps/feed_handler/main.cc:280-282 | the 64-bit comparison sees exactly what replaces lost, modulo 2^64 |
| Streams.ColumnsAreFalls | apps/feed_handler/main.cc:136-224 | each column by itself: executed is what the books lost to E and C messages, cancelled to X, deleted to D, added what A and F brought; applied replaces enter what they took and brought |
| FeedHandling.CleanExactly | apps/feed_handler/main.cc:326-330 | the six counters of the exit status are zero exactly when every message was of a named type and its length and was done in full on a known locate |
| FeedHandling.Feed | apps/feed_handler/main.cc:97-329 | the audited driver on any file, debug build or not: books, counters, counts by type, each column by the messages that move it, both verdicts; the exit status is 0 exactly when the checks pass and no message was out of the ordinary |
| Bytes.ReadWritten | src/common/byte_reader.h:22-65 | a big-endian number that was written is read back |
| Bytes.ByteAt | src/common/byte_reader.h:22-65 | the byte with j bytes after it is the lowest byte of the number shifted right by j bytes |
| Bytes.WriteRead | src/mold/mold.cc:9-24 | bytes that were read as a number are written back as they were |
| Bytes.ReadBE | src/common/byte_reader.h:22-65 | the shifting loop reads the number that the bytes spell |
| Bytes.PutBE | src/mold/mold.cc:16-24 | the writing loop writes those bytes and no others |
| Framing.Framer.Next | src/itch/framing.cc:15-45 | hands out a message exactly when a block of 1 to 65535 bytes starts there, that block's message, and advances past it; or stops without moving |
| Framing.FrameExactly | src/itch/framing.cc:15-45 | there is a frame exactly when a message with its length in front starts there |
| Framing.FramesOfEncoding | src/itch/framing.cc:15-55 | walking the encoding of any messages of 1 to 65535 bytes gives them back and consumes it |
| Framing.EncodingOfFrames | src/itch/framing.cc:15-55 | on any bytes, what a walk consumed is the encoding of what it handed out |
| Framing.ExhaustedIsEncoding | src/itch/framing.cc:52-55 | a buffer is walked to its end exactly when it is the encoding of its frames |
| Mold.EncodeHeader | src/mold/mold.cc:27-36 | writes session, sequence and count at bytes 0, 10 and 18, big-endian, and leaves the rest of the buffer |
| Mold.HeaderRoundTrip | src/mold/mold.cc:38-48 | a written header is read back, whatever follows it |
| Mold.ReadHeader | src/mold/mold.cc:38-48 | reads session, sequence and count from bytes 0, 10 and 18 |
| Mold.HeaderBytes | src/mold/mold.cc:38-48 | a header read from any packet is written back as it was |
| Mold.MakeSession | src/mold/mold.cc:50-59 | a session id is the text, truncated or padded with spaces |
| Packing.Packer.TryAdd | src/mold/packer.cc:17-38 | takes a message exactly when it fits by bytes and the count stays below the marker; the buffer stays the encoding of what it took |
| Packing.Packer.Finish | src/mold/packer.cc:40-54 | hands out header and blocks as one packet, and advances the 64-bit sequence by its count |
| Packing.Packer.EndOfSession | src/mold/packer.cc:56-64 | the marker is a header alone and advances nothing |
| Packing.PacketRoundTrip | src/mold/packer.cc:17-54 | a receiver reads back the header and exactly the messages |
| Decoding.Decoder.OnPacket | src/mold/decoder.cc:21-105 | for any bytes: messages are handed over exactly from a packet that is awaited and whose blocks are those messages to the last byte, as many as stated; and what each of its fields becomes, given the header and what was handed over |
| Decoding.Validate | src/mold/decoder.cc:75-88 | true exactly when the bytes behind the header are the blocks of as many messages as stated |
| Decoding.Deliver | src/mold/decoder.cc:96-101 | hands over the blocks that were validated, in order |
| DecoderSpec.HandedExactly | src/mold/decoder.cc:65-101 | all messages of a packet or none: handed over exactly when it is no marker, no heartbeat, not behind, and its blocks fill it in the stated number |
| DecoderSpec.StepObserved | src/mold/decoder.cc:21-105 | session, expected and last number, gaps and every counter after a packet, by its header and by what it handed over |
| DecoderSpec.EventsAreReal | src/mold/decoder.cc:31-104 | the events of a run deliver exactly what the sink received, lose exactly what was noted as gaps, and begin as many sessions as the receiver did |
| DecoderSpec.RunTiles | src/mold/decoder.cc:31-104 | over any packets, those events follow one another without hole or overlap, from the first expected number to the last |
| DecoderSpec.Partition | src/mold/decoder.cc:31-104 | over any packets of one session without a wrap: exactly the numbers the expected one passed are covered, each by one event only, delivered once or reported lost once |
| DecoderSpec.FreshRun | src/mold/decoder.cc:34-39 | a fresh receiver does what one does that is in the first header's session, at the number that header names, from the start |
| DecoderSpec.FreshPartition | src/mold/decoder.cc:31-104 | the partition from a fresh receiver: exactly the numbers from the first packet's to the expected one are covered, each by one event only |
| DecoderSpec.RepeatsNeedBreak | src/mold/decoder.cc:31-45 | over any packets, a number is covered twice only across the beginning of a session or a wrap |
| DecoderSpec.RepeatsExactly | src/mold/decoder.cc:40-69 | a packet after a session without a wrap covers a number again exactly when it opens another session and its delivered numbers meet those covered before |
| DecoderSpec.CountersAreTotals | src/mold/decoder.cc:10-19 | the message counter counts what was handed over, and the gap message counter sums all gaps |
| DecoderSpec.Accounting | src/mold/decoder.cc:102-104 | messages plus gap messages are the advance of the expected number, summed over sessions, plus 2^64 for each wrap |
| DecoderSpec.SessionAccounting | src/mold/decoder.cc:102-104 | over any packets of one session, the 64-bit sum of messages delivered and messages lost is the 64-bit advance of the expected number, wraps included |
| DecoderSpec.UnboundedAccounting | src/mold/decoder.cc:102-104 | as unbounded numbers the two differ by 2^64 for each wrap, and are equal only without one |
| DecoderSpec.GapsListed | src/mold/decoder.cc:10-19 | the listed gaps are all gaps, or the first 4096 of them; all are counted, and their messages summed |
| DecoderSpec.RejectedChangesNothingExactly | src/mold/decoder.cc:34-45 | a rejected packet changes nothing but its counter exactly when its header opens no session |
| DecoderSpec.MarkerAdvancesNothingExactly | src/mold/decoder.cc:47-58 | a marker leaves the expected number alone exactly when it names none past it |
| DecoderCases.MarkerAdvances | src/mold/decoder.cc:50-54 | message 1, then a marker that names 5: three lost, and 5 expected |
| DecoderCases.RejectedSwitches | src/mold/decoder.cc:40-45 | a rejected packet after which the receiver is in another session |
| DecoderCases.StrayHeaderRepeats | src/mold/decoder.cc:40-63 | one stray heartbeat between a packet and its copy: both delivered, no gap, no duplicate |
| DecoderCases.WrapAccounts | src/mold/decoder.cc:104 | the message with the last 64-bit number: 0 is expected next, and the 64-bit advance is the one message |
| Lossy.TransmissionReceived | apps/replayer/main.cc:192-253 | for any dropped packets: exactly the kept messages in order, and the gaps of each run dropped |
| Lossy.DropsFound | apps/replayer/main.cc:192-253 | the gaps are exactly the maximal runs dropped after the first kept packet, a trailing run included, with exact first number and count, apart and in order |
| Lossy.TransmissionUntroubled | src/mold/decoder.cc:21-105 | of a sender's kept packets none is ignored, rejected or out of session, and the end is seen |
| Arrivals.AnyArrivals | src/mold/decoder.cc:65-104 | packets lost, repeated and reordered in any way: delivered are exactly those later than all before them, lost are exactly those stepped over, the rest count as duplicates |
| Arrivals.AnyArrivalsEnded | src/mold/decoder.cc:47-58 | with the marker after any arrivals, what was stepped over at the end is reported lost too |
| Arrivals.CopiesDoNoHarm | src/mold/decoder.cc:65-69 | each message is handed over once and in order exactly when the last packet comes and none comes before an earlier one has; copies at any later time change nothing |
| Arrivals.OverlapIsLost | src/mold/decoder.cc:65-69 | a packet that overlaps what was delivered is ignored whole; what it had of new is reported lost by whatever packet or marker comes next, unless that begins there |
| Replaying.Replayer.Flush | apps/replayer/main.cc:192-216 | sends or drops the packet being built; either way the sequence advances and nothing taken is lost |
| Replaying.Replayer.Ship | apps/replayer/main.cc:197-211 | the packet joins what was sent or the drop log, which stay exact |
| Replaying.Replayer.Pack | apps/replayer/main.cc:229-244 | a packet is filled before the next is begun; the retry after a flush never fails; the packet limit stops the run, at a message the last packet had no room for |
| Replaying.Replayer.PackAll | apps/replayer/main.cc:218-245 | takes every message that fits, in order, until the file or the packet limit ends it |
| Replaying.Replayer.Run | apps/replayer/main.cc:218-253 | every run ends with packed plus too large equal to read and the sequence one past packed; what was sent is the transmission of the packets built; each packet was full for the message that begins the next, and no other division of the same messages uses fewer packets |
| Replaying.FewestPackets | apps/replayer/main.cc:218-245 | packets filled one after the other are never more than those of any other division of the same messages |
| Replaying.LogExactly | apps/replayer/main.cc:202-207 | the drop log holds one exact entry for each packet dropped, and no other |
| Replaying.LogMatchesGaps | apps/replayer/main.cc:192-211 | the messages the receiver counts as lost are those the drop log says were dropped after the first packet kept |
| Wire.FittingExactly | apps/replayer/main.cc:221-228 | no message is left out exactly when every message fits |
| Wire.DeliveredExactly | apps/replayer/main.cc:218-253 | the sink receives the file's messages, each once and in order, exactly when all fit and no packet is dropped |
| Wire.Receive | src/book/replay.h:48-61 | books and counters from any packets are the fold over what the receiver handed over |
| Wire.ReceiveArrivals | src/book/replay.h:48-61 | books and counters from packets that come with copies and in part late are those of the file, when no packet comes before an earlier one has and the last one comes; every copy is counted, nothing is lost |
| Wire.BuildFromWire | src/book/replay.h:51-54 | books and counters built from the wire are those built from the file, for every payload limit that the messages fit, and the receiver reports nothing lost, ignored or rejected |

## Left out

- FlatHashMap.OrderIndex.Insert: takes quantities below 2^31, as the source asserts, since bit 31 is the side; and fewer than 2^62 live references, so that slot positions fit their 64 bits.
- Book.OrderBook.Add: takes fewer than 2^32 - 1 live orders in a book, so that no 32-bit count of a level wraps; the walks ask the same of every book they pass through, and any file below 12 GB meets it (`Replays.SmallFilesRoomy`).
- Replays.ApplyMessage: takes messages at least as long as their type promises; the source's decoders read past the end of shorter ones.
- Replaying.Replayer.Run: takes files below 2^64 bytes, so that no sequence number wraps; packer and receiver are modelled with the wrap.
- FlatHashMap.OrderIndex.Find: returns a slot index for the pointer of the source, so a pointer kept across an insert is not modelled.
- Decoding.Decoder.OnPacket: returns the calls to the sink as a list, in order, without the receive time stamp.
- FeedHandling.Feed: leaves out the printed report.
- The multiplier of the hash: the proofs hold for every function from references to slots.
- Counters of type `size_t` and the counters of the decoder, the replayer and the statistics are unbounded; sequence numbers, share sums, quantities and level fields keep their widths.
- The overflow map is a Dafny map iterated in key order; its tree is not modelled.
- The probe loops of insert, find and erase are one method, as they are one loop written three times.
- Sockets, multicast, file reading, argument parsing, logging: the network is any sequence of byte packets.
- The gap injector's counting and random modes: replaced by an arbitrary choice of packets to drop.
- The rate limiter, clocks and latency recorder: time does not enter any result.
- Fields of messages that move no book (system events, trading status, trades): plain offset reads.
- Prefetching, reserved capacity, cache-line layout and reference stability of containers.
- Capture of packets to a file (`apps/replayer/capture.cc`) and the benchmark that reads a socket: the latter is not part of this model.
