# A verified model of an HFT prototype

This project models, in Dafny 4.11, the parts of the trading prototype whose correctness is not visible in any single
function: the limit order book with its memory pool and matching engine, the lock-free ring queue and the order pipeline
on top of it, the market-data challenge protocol between server and client, the two order books of the fifth phase and
the matrix kernels of the first. `dafny verify dfyconfig.toml` checks everything.

## How it is laid out

**Matching engine (Phase 4).** `Orders`, `Pool`, `OrderBook` and `MatchingEngine` are the objects, with the fields the
code keeps: pooled order slots, two ordered multimaps and the index by id. `Layout` says, as a relation on values, how
these hold a book; `Matching` and `BookOps` define one crossing, a whole call and the book operations on book values.
`MatchTheorems`, `Priority` and `Fills` prove what a whole call guarantees, `Sessions` what every run guarantees,
`Crossings` on which books the loop ends; `BookRuns` runs any sequence of operations on the objects and says what its
last operation has done, and `TickLoop` is the loop of the latency test, proved to be such a run. `Match(Whole, b)` is
the call as coded, which trades the smaller *whole* quantity; `Match(Remaining, b)` is the same call with the smaller
*unfilled* quantity.

**Ring queue and pipeline (Session 7).** `RingQueue` is the queue used by one thread at a time. `RingProgram` is what
one thread does in a push or a pop. `RingProtocol` is the queue shared by one producer and one consumer, one step per
atomic or buffer access: an index load may return any store not older than the last one seen, and what a load orders
before the loading thread depends on the memory order (section 31.4 of ISO/IEC 14882:2020). `RingRefusals` says when
stale loads turn a call away for nothing, `RingRaces` which accesses race under which memory order, and `RingThreads` is
the queue shared by any number of producers and consumers. `Pipeline` is the step system of producers and any number of
consumers around an atomic queue.

**Challenge protocol (final project).** `Decimals` and `Prices` are digit strings, the client's hand-written parser and
the two printed forms of a price (section 7.21.6.1 of ISO/IEC 9899:2011); `Broadcast` is the message and its fragments,
`Client` the parse loops and the reply, `Server` the judging of responses, `RoundTrip` the way from message to client,
`Replies` the way from reply line to verdict, `OddText` what both do with irregular text and `EndToEnd` the whole way
round.

**Order books (Phase 5)** are `TwoIndexBook` and `RecentPool`; **matrix kernels (Phase 1)** are `Matrices`. `Modular`
holds the facts about remainders that the ring and the matrices share.

## Where the code does not do what it is for

- The matching engine trades whole quantities (`Phase_4/src/MatchingEngine.cpp:22`), so an order filled in part can be
  filled beyond its quantity. The exact bound is below twice the quantity and is attained (`Fills.RemovedFill`,
  `Fills.OverfillAttained`). `Fills.NoOverfillExactly` says for every book exactly when nothing is overfilled: lay out
  what the orders of each side have left end to end; wherever a bid and an ask that cross in price overlap, one of the
  two must be unfilled and lie within the other. It follows from the bound that fills fit an `int` if quantities stay
  below 2^30.
- An order of quantity 0 keeps the status `New` (`Phase_4/include/Order.hpp:35`), so a crossing that involves one
  changes nothing and the loop repeats it for ever (`Crossings.ZeroHeadLoops`), also when such an order has rested in
  the book since an earlier, harmless addition. `Crossings.EndsExactly` says which additions to an uncrossed book
  without negative quantities the next call survives, for a new order of any quantity: it crosses nothing, or its
  quantity is negative, or it is positive and filled by the orders in front of the first order of quantity 0 that it
  crosses. `Crossings.EndsOnAnyBook` says it for every book without negative quantities, crossed or not.
- The experimental queue's relaxed and fenced variants do not order an item's write before its read; the fence stands
  before the load it would have to follow. `RingProtocol.RaceFreeExactly` shows which memory orders suffice,
  `RingRaces.RacesByOrdering` which accesses race under which, and `RingProtocol.FirstPopRaces` gives the run that
  fails.
- The program runs the ring queue with five producers and four consumers (`Session7/main.cpp:29-38`), which the
  algorithm does not support: two overlapping pushes are both accepted and one item is lost, two overlapping pops
  deliver one item twice (`RingThreads.TwoProducersLoseAnItem`, `RingThreads.TwoConsumersShareAnItem`).
  `RingThreads.FifoExactly` says for every capacity and every number of threads when all runs keep the queue's promise:
  one producer with at most one consumer, no producer at all, or a single slot, which never accepts an item.
- A consumer reads the shutdown flag after its failed pop (`Session7/OrderProcessing.cpp:65-68`), so a last push between
  the two is left in the queue, with any number of consumers (`Pipeline.PopFirstLosesLastPush`).
  `Pipeline.DrainsExactly` says which pipelines always drain: those with a consumer that read the flag before the pop,
  and no others. `Pipeline.PopFirstDrainsExactly` says of each run of the code as written whether it drains.
- The server never sets `correct` (`final_project/main_server.cpp:159`), so every reply says `INCORRECT`, also to the
  winner; winner results are about the stored challenge.
- `addOrder` of the two-index book leaves the old copy at the old price level when a known id comes with a new price
  (`TwoIndexBook.AddConsistentExactly`). Deleting the id does not remove that copy; bringing the id back to the old
  price does. `TwoIndexBook.RunConsistentExactly` says after which runs of operations the two copies are in step.

## Model

| member | source | states |
|---|---|---|
| Orders.Order.UpdateFilled | Phase_4/include/Order.hpp:33-42 | adds to the filled quantity and sets the status from the new total, zero coming first |
| Orders.Order.Set | Phase_4/include/Order.hpp:48-56 | constructing in a slot gives a new, unfilled order |
| Pool.MemoryPool.constructor | Phase_4/include/MemoryPool.h:19-20 | a pool of the given size with every slot free |
| Pool.MemoryPool.Allocate | Phase_4/include/MemoryPool.h:24-34 | refused exactly when all slots are used; otherwise the first free slot, one more used, all other slots untouched |
| Pool.MemoryPool.Deallocate | Phase_4/include/MemoryPool.h:37-49 | frees the slot at the pointer's offset and nothing else |
| OrderBook.LimitOrderBook.constructor | Phase_4/src/OrderBook.cpp:6-7 | an empty book over a pool of the given size |
| OrderBook.LimitOrderBook.AddOrder | Phase_4/src/OrderBook.cpp:11-34 | refused exactly when resting orders = pool size, leaving the book unchanged; otherwise stable price-time insertion; index, multimaps and pool stay in agreement |
| OrderBook.LimitOrderBook.RemoveOrder | Phase_4/src/OrderBook.cpp:54-64 | takes out the order with the id, or nothing if none rests, with index, multimaps and pool in agreement |
| OrderBook.LimitOrderBook.GetBestBid | Phase_4/src/OrderBook.cpp:39-42 | the stored order that is the head of the bids, null exactly when there is none |
| OrderBook.LimitOrderBook.GetBestAsk | Phase_4/src/OrderBook.cpp:47-50 | the stored order that is the head of the asks, null exactly when there is none |
| Layout.IndexIsBijection | Phase_4/include/OrderBook.hpp:48-52 | the index has exactly the resting ids, leads each to its own slot and its node on the right side, every used slot is reached, used slots = resting orders |
| Layout.AddHolds | Phase_4/src/OrderBook.cpp:27-33 | writing a free slot, a multimap node and the index entry represents the book with the order added |
| Layout.RemoveHolds | Phase_4/src/OrderBook.cpp:55-63 | the index leads to the order's slot and node; erasing both and the entry represents the book without it |
| Layout.FillBothHold | Phase_4/src/MatchingEngine.cpp:27-28 | filling the two best orders in place fills exactly the two heads of the book |
| BookOps.UpperBound | Phase_4/src/OrderBook.cpp:28-31 | a new key goes behind every key it does not come before, and only those |
| BookOps.AddWellFormed | Phase_4/src/OrderBook.cpp:27-33 | adding a non-resting id keeps both sides sorted and ids unique, with one order more |
| BookOps.RemoveTakesOnly | Phase_4/src/OrderBook.cpp:54-64 | removing takes out the order with that id, if it rests, and every other order stays in its place |
| BookOps.RemoveWellFormed | Phase_4/src/OrderBook.cpp:54-64 | removing keeps sides sorted and ids unique, leaves one order less if the id rests, and leaves the id absent |
| BookOps.RemoveUndoesAdd | Phase_4/src/OrderBook.cpp:11-64 | removing the id just added restores the book exactly |
| Matching.StepProgress | Phase_4/src/MatchingEngine.cpp:22-36 | one crossing trades a positive quantity, removes at least one head and leaves only unfilled or part-filled orders |
| MatchingEngine.Engine.Cross | Phase_4/src/MatchingEngine.cpp:22-36 | the in-place crossing of the two best orders is one step of the call on the book value |
| MatchingEngine.Engine.MatchOrders | Phase_4/src/MatchingEngine.cpp:12-40 | on every book on which the loop ends, its trades and the uncrossed final book are those of crossing after crossing; if every order has something left, those of the whole call on the book value |
| MatchTheorems.MatchUncrosses | Phase_4/src/MatchingEngine.cpp:15-20 | the call ends uncrossed, keeps the book well formed and leaves only tradable orders |
| MatchTheorems.MatchTradeCount | Phase_4/src/MatchingEngine.cpp:15-37 | every trade is positive and removes at least one order, so n resting orders give at most n-1 trades |
| MatchTheorems.MatchSettles | Phase_4/src/MatchingEngine.cpp:15-37 | per side, removed orders followed by survivors are the side at entry in order, each filled further by exactly the trades naming it |
| Priority.AtMostOnePartial | Phase_4/src/MatchingEngine.cpp:15-37 | survivors are an untouched tail but for the head, and at most one head of the two sides has traded |
| Priority.MatchWalks | Phase_4/src/MatchingEngine.cpp:22-36 | the trades walk down both sides from the heads, one order at a time, each at the ask's limit and not above the bid's |
| Priority.TradesInPriority | Phase_4/src/MatchingEngine.cpp:15-37 | trade prices never fall, bid limits never rise, and the trades of each order are contiguous |
| Fills.RemovedFill | Phase_4/src/MatchingEngine.cpp:22-36 | a removed order has quantity <= filled <= 2*quantity-1; with remaining quantities filled = quantity |
| Fills.RemainingExact | Phase_4/src/MatchingEngine.cpp:22-36 | with remaining quantities no order is ever overfilled |
| Fills.OverfillAttained | Phase_4/src/MatchingEngine.cpp:22-28 | for every quantity above 1 a book of unfilled orders attains the upper bound |
| Fills.SidesBalance | Phase_4/src/MatchingEngine.cpp:25-28 | each side's filled volume, removed orders included, grows by the traded volume, so buy total = sell total = traded total |
| Fills.NoOverfillExactly | Phase_4/src/MatchingEngine.cpp:22-28 | for every book, the code overfills nothing, and equally makes the trades of the remaining-quantity rule, if and only if crossing orders nest |
| Fills.EqualQuantitiesExact | Phase_4/src/MatchingEngine.cpp:22-28 | with equal quantities and no part-filled order the code already conserves |
| Crossings.TradableEnds | Phase_4/src/MatchingEngine.cpp:15-37 | if every order has something left the loop ends, and wherever it stops is the whole call's book with the whole call's trades |
| Crossings.ZeroHeadLoops | Phase_4/include/Order.hpp:33-42 | with a crossing head of quantity 0 every number of iterations leaves the book as it is and adds as many empty trades |
| Crossings.EndsOnAnyBook | Phase_4/src/MatchingEngine.cpp:15-37 | on every book without negative quantities the loop ends iff, once the orders in front of the first quantity 0 of each side are matched, what is left does not cross |
| Crossings.EndsExactly | Phase_4/src/MatchingEngine.cpp:15-37 | on an uncrossed book without negative quantities, the call after adding an order of any quantity ends iff the order crosses nothing, is negative, or is positive and filled by what stands in front of any order of quantity 0 it crosses |
| Crossings.StaysResting | Phase_4/src/MatchingEngine.cpp:22-36 | any number of crossings leaves such a book such a book, so the condition can be asked again before the next addition |
| Sessions.RunKeepsGood | Phase_4/src/OrderBook.cpp:11-64 | over every run of legal additions, removals and matching calls: sorted sides with FIFO ties by arrival, unique ids, at most pool-size orders |
| Sessions.EveryRunFromEmpty | Phase_4/src/OrderBook.cpp:11-64 | the same for every run that starts with an empty book |
| BookRuns.RunOps | Phase_4/src/OrderBook.cpp:11-64 | any legal sequence of additions, removals and matching calls on the real objects ends with the book of the run |
| BookRuns.RunGoesOn | Phase_4/include/OrderBook.hpp:28 | a run goes on with every removal and matching call, and with an addition exactly when its quantity is positive and its id does not rest |
| BookRuns.AfterRemove | Phase_4/src/OrderBook.cpp:54-64 | after a run that ends with a removal the id does not rest and every other order is where it was |
| BookRuns.AfterMatch | Phase_4/src/MatchingEngine.cpp:15-37 | after a run that ends with a matching call the book is uncrossed, the orders before are those that left, all filled, then those that stayed, none filled, each filled further by the trades naming it, and there are trades iff the book was crossed |
| BookRuns.AfterAdd | Phase_4/src/OrderBook.cpp:11-34 | after a run that ends with an addition the order rests, unfilled, iff there was room, behind all that are not worse and in front of all that are, and nothing else has changed |
| Sessions.TickTradesNewcomer | Phase_4/test/test_latency.cpp:65-71 | on an uncrossed book every trade of add-then-match has the new order as a party, at the ask's limit, no worse than its own limit, and the book ends uncrossed |
| Sessions.NewOrdersAreReady | Phase_4/test/test_latency.cpp:53-63 | every sequence of new orders with positive quantities and ids of their own can be run tick by tick from the empty book |
| Sessions.EveryTick | Phase_4/test/test_latency.cpp:55-74 | the same at every tick of every run of ticks |
| TickLoop.RunTicks | Phase_4/test/test_latency.cpp:55-74 | the loop on the real objects is that run: same final book, same trades tick by tick, each with the tick's own order |
| RingQueue.ConcurrentQueue.constructor | Session7/ConcurrentQueue.hpp:9 | a ring of at least one slot starts as the empty queue |
| RingQueue.ConcurrentQueue.Push | Session7/ConcurrentQueue.hpp:12-27 | appends to the FIFO; refused exactly when capacity-1 items are queued |
| RingQueue.ConcurrentQueue.Pop | Session7/ConcurrentQueue.hpp:30-44 | takes the oldest item; refused exactly when empty, leaving the caller's variable alone |
| RingQueue.ConcurrentQueue.Empty | Session7/ConcurrentQueue.hpp:47-50 | true exactly for the empty FIFO |
| RingQueue.ConcurrentQueue.Full | Session7/ConcurrentQueue.hpp:53-56 | true exactly at capacity-1 items |
| RingQueue.ConcurrentQueue.Size | Session7/ConcurrentQueue.hpp:59-67 | the wrap-around difference is the number of queued items |
| RingThreads.TwoProducersLoseAnItem | Session7/ConcurrentQueue.hpp:12-27 | from every state with room a run of two producers in which both pushes are accepted and only the second item is in the ring |
| RingThreads.TwoConsumersShareAnItem | Session7/ConcurrentQueue.hpp:30-44 | from every state with an item a run of two consumers that both deliver the oldest item |
| RingThreads.FifoExactly | Session7/main.cpp:29-38 | for every capacity and numbers of threads: all runs keep accepted = delivered then ring contents (and all runs keep delivered a prefix with the indices counting the rest) iff there is one producer and at most one consumer, no producer, or one slot |
| RingProtocol.SingleProducerSingleConsumer | Session7/ConcurrentQueue.hpp:12-44 | in every interleaving with stale monotone views: delivered items are a prefix of the accepted, every other accepted item is in its slot of the ring, at most capacity-1 of them, no racing access, no write to a slot whose item is unread, the item being popped is the next one |
| RingProtocol.OnlySpuriousRefusals | Session7/ConcurrentQueue.hpp:16-35 | a push (pop) is refused exactly when the ring was full (empty) at the index it saw; with a fresh index the refusal is true, and a truly full (empty) ring is always refused |
| RingRefusals.SpuriousExactly | Session7/ConcurrentQueue.hpp:16-35 | in a ring that can hold an item, some run refuses a push with room left, and some run a pop with an item there, iff the index loads are not sequentially consistent |
| RingProtocol.RunIndices | Session7/ExperimentalQueue.hpp:14-103 | under every memory order the indices count in turn and each side's view keeps at most capacity-1 items between them |
| RingProtocol.RacesExactly | Session7/ExperimentalQueue.hpp:14-103 | a read races iff the consumer's view does not cover the item's write, a write iff the producer's view does not cover the freeing read |
| RingProtocol.RaceFreeExactly | Session7/ExperimentalQueue.hpp:14-103 | with room for an item, all runs are race-free if and only if the index accesses are acquire/release or sequentially consistent |
| RingRaces.RacesByOrdering | Session7/ExperimentalQueue.hpp:14-103 | with room for an item, reads are free of races in all runs iff the index accesses synchronise, writes already iff there is any ordering at all: the fenced variant never overwrites a slot unordered, the relaxed one does |
| RingRaces.NeitherSideBlocks | Session7/ConcurrentQueue.hpp:12-44 | in every run, under every memory order, both sides can take a step |
| RingProtocol.FirstPopRaces | Session7/ExperimentalQueue.hpp:66-103 | a concrete run of the relaxed and of the fenced variant whose first pop races and may return any value |
| Pipeline.EveryRunKeeps | Session7/OrderProcessing.cpp:60-94 | in every run with any number of consumers: permits + holders = 3, every pushed order is queued, in flight or completed, the book is the completed volume plus orders between book and record, the counter lags by the uncounted |
| Pipeline.AllPermitsTaken | Session7/OrderProcessing.cpp:31 | with three consumers or more, a run has three orders in processing at once |
| Pipeline.LeavesAfterFlag | Session7/OrderProcessing.cpp:64-71 | in every run a consumer leaves only after the flag was set |
| Pipeline.EveryRunQueueOrder | Session7/OrderProcessing.cpp:53-65 | in every run with any number of consumers the queue is what was pushed last, oldest first, at most 1023 orders |
| Pipeline.QueueFills | Session7/OrderProcessing.cpp:53-54 | that bound is reached: every queue length up to 1023 occurs |
| Pipeline.OneConsumerInOrder | Session7/OrderProcessing.cpp:63-92 | with one consumer the completed orders, then the one in hand, are the first of those pushed, in order |
| Pipeline.AtExit | Session7/OrderProcessing.cpp:63-94 | once all consumers exited, the orders missing are exactly those in the queue, the counter is the number completed and the book their volume |
| Pipeline.FlagFirstDrains | Session7/OrderProcessing.cpp:64-71 | reading the flag before the pop, all pushed orders are completed at exit |
| Pipeline.PopFirstDrainsExactly | Session7/OrderProcessing.cpp:64-71 | as written, all orders are completed at exit iff some consumer's last failed pop came after the last push |
| Pipeline.PopFirstLosesLastPush | Session7/OrderProcessing.cpp:65-68 | for every number of consumers a run that exits with the last order in the queue |
| Pipeline.DrainsExactly | Session7/OrderProcessing.cpp:63-71 | all runs complete every pushed order by the exit iff there is a consumer and the flag is read before the pop |
| Pipeline.SomeConsumerCanStep | Session7/OrderProcessing.cpp:63-93 | no deadlock: until all consumers exited, one of them can step |
| Pipeline.ShutdownCompletes | Session7/OrderProcessing.cpp:63-93 | once the flag is set, under either discipline, every run has at most seven more steps for each queued order and each consumer, and a run that cannot go on has all consumers exited |
| Decimals.ParseDoubleAt | final_project/client.cpp:11-26 | the two loops compute the parse of the digits before and behind the point, with the pointer behind them or a read past the buffer |
| Decimals.ParsesWhole | final_project/client.cpp:12-16 | the parser returns exactly the value of every digit string |
| Decimals.ParsesFraction | final_project/client.cpp:17-25 | the digit-by-digit fraction is exactly the digits' value over the power of ten |
| Prices.PlainTextParses | final_project/client.cpp:64-67 | the client reads from a printed price, trailing zeros and point removed, exactly the printed number |
| Prices.SixSignificantDigits | final_project/main_server.cpp:77 | the printed number keeps exactly six significant digits, also when rounding carries to 100 |
| Prices.PlainTextIsBare | final_project/main_server.cpp:77 | default stream output leaves no trailing zeros and no bare point |
| Prices.ShownClose | final_project/main_server.cpp:77 | printing to six significant digits moves a price by at most 5e-4 |
| Prices.ShownFixed | final_project/client.cpp:92-96 | a printed price is reproduced exactly by six decimals |
| Broadcast.TickersDistinct | final_project/main_server.cpp:42-49 | generated tickers are SEC and four digits and pairwise distinct |
| Broadcast.MessageFitsOneDatagram | final_project/main_server.cpp:75-94 | ten securities give a message below 400 characters, so one fragment |
| Broadcast.Fragment | final_project/main_server.cpp:92-99 | the fragments joined are the message, all but the last full, and a message that fits is sent as one |
| Client.SkipLineAt | final_project/client.cpp:70-71 | stops behind the next line feed or at the terminator, whichever comes first |
| Client.ReadEntries | final_project/client.cpp:55-72 | the parse loop, for every buffer content, including reads past its end |
| Client.Search | final_project/client.cpp:74-77 | the first occurrence of the pattern in the text, or none |
| Client.TradingClient.Lookup | final_project/client.cpp:82-89 | prices of the first entry with the ticker, zeros if there is none |
| Client.TradingClient.Receive | final_project/client.cpp:49-97 | reply and remembered id and target, for every buffer content |
| OddText.ParsesPastEnd | final_project/client.cpp:11-26 | the parser reads past the buffer iff nothing but digits with at most one point follows |
| OddText.OtherLinesSkipped | final_project/client.cpp:55-72 | text without a security line yields no entry and no read past the buffer |
| OddText.MissingHeaderKept | final_project/client.cpp:74-80 | without its line the remembered id, or target, stays |
| OddText.AtoiReads | final_project/client.cpp:74-75 | the number behind the id marker is read with leading blanks and sign |
| OddText.LookupIsFirst | final_project/client.cpp:82-89 | the first entry with the ticker decides, and without one both prices are 0 |
| RoundTrip.AnyLeftover | final_project/client.cpp:52-53 | the receive buffer is the terminated message in front of any leftover bytes |
| RoundTrip.EntriesRecovered | final_project/client.cpp:55-72 | from every broadcast, in any order, the client reads exactly the printed entries, and of more than ten exactly the first ten |
| RoundTrip.HeaderRecovered | final_project/client.cpp:74-80 | and exactly the challenge id and target, whatever it remembered |
| RoundTrip.NoEarlyId | final_project/client.cpp:74 | the id search never matches inside a security line |
| RoundTrip.NoEarlyTarget | final_project/client.cpp:77 | the target search never matches before its own line |
| Server.ChallengeServer.Publish | final_project/main_server.cpp:36-37 | a new challenge with the next id and no winner replaces the current one |
| Server.ChallengeServer.ProcessOrder | final_project/main_server.cpp:142-189 | reads the response as stream extraction does, with signs and exponents and the range of `int`, and judges it against the current challenge; the reply text is the same for every response |
| Server.IdsCountPublications | final_project/main_server.cpp:36 | over every run the current id is the number of publications, so ids strictly increase |
| Server.WinnerIsFirstCorrect | final_project/main_server.cpp:160-187 | after every run the current challenge has a winner iff a correct response followed its publication, and it is the first such in lock order |
| Server.WinnerIsFinal | final_project/main_server.cpp:163-177 | a declared winner never changes until another challenge replaces it |
| Server.StaleResponseNeverWins | final_project/main_server.cpp:163 | a response with another id than the current one changes nothing |
| Replies.IntReads | final_project/main_server.cpp:145-149 | an integer is extracted with its sign, and fails outside the range of `int` |
| Replies.DoubleReads | final_project/main_server.cpp:145-149 | a number of six decimals is extracted exactly, with its sign |
| Replies.ScientificReads | final_project/main_server.cpp:145-149 | an exponent behind it moves the point, to the left if it is negative |
| Replies.PointMoves | final_project/main_server.cpp:145-149 | moving the point multiplies by the power of ten, and to the left is undone by it |
| Replies.ReplyReads | final_project/main_server.cpp:145-149 | the server reads from a reply line exactly the id, ticker and prices written, and the first word of the name, whatever the name; a line with an id that is no `int` is malformed |
| Replies.FixedTextReads | final_project/main_server.cpp:145-149 | whatever number the client prints with six decimals, negative ones included, the server reads within half a millionth |
| OddText.NoDigitFails | final_project/main_server.cpp:145-149 | a sign or a point without a digit is no number |
| OddText.OtherHeaderIgnored | final_project/main_server.cpp:142-157 | a line whose first word is not the response header changes nothing |
| Replies.VerdictExactly | final_project/main_server.cpp:160-187 | the verdict on every reply line: it wins iff the challenge is unwon, id and target are its own, the market has the target and both prices are within 0.001; otherwise nothing changes |
| EndToEnd.ReplyWritten | final_project/client.cpp:82-97 | the client's answer to a broadcast is the line with the id, the target and the two printed prices, or a read past its reply buffer when the line does not fit |
| EndToEnd.HonestReplyWins | final_project/main_server.cpp:163-177 | broadcast, parsing, reply and parsing move each price by at most 5e-4, and the reply, if it fits the client's buffer, wins the current, unwon challenge for the first word of any trader name, for every target among the first ten securities printed |
| TwoIndexBook.AddConsistentExactly | Phase_5/src/OrderBook.cpp:25-29 | adding to a consistent book keeps both copies in step iff the id is new or keeps its price |
| TwoIndexBook.LookupIsMap | Phase_5/src/OrderBook.cpp:25-45 | over every run, offending additions included, the lookup is a plain map, and its orders stand at their levels as equal copies |
| TwoIndexBook.LevelsExactly | Phase_5/src/OrderBook.cpp:25-45 | after every run an id stands at a level iff the plain map has it there or an addition moved it away and it has not been back |
| TwoIndexBook.RunConsistentExactly | Phase_5/src/OrderBook.cpp:25-45 | after every run both copies are in step iff no addition left a copy behind that its id has not come back to |
| TwoIndexBook.OrderBook.AddOrder | Phase_5/src/OrderBook.cpp:25-29 | one step of the run, on any book; a consistent book stays so exactly under the condition on the price |
| TwoIndexBook.OrderBook.ModifyOrder | Phase_5/src/OrderBook.cpp:31-37 | one step of the run, on any book: the map update that keeps the side and ignores unknown ids; a consistent book stays so |
| TwoIndexBook.OrderBook.DeleteOrder | Phase_5/src/OrderBook.cpp:39-45 | one step of the run, on any book: map removal; a consistent book stays so |
| RecentPool.OptimizedOrderBook.HandleOrder | Phase_5/src/OrderBook.cpp:74-89 | the rotated pool becomes the last `size` orders with the new one appended |
| RecentPool.OptimizedOrderBook.ProcessOrders | Phase_5/src/OrderBook.cpp:91-96 | the unrolled loop leaves the last `size` orders ever received, as handling them one at a time does |
| RecentPool.HandleAllIsLast | Phase_5/src/OrderBook.cpp:74-89 | handling a stream one order at a time leaves its last `size` orders |
| Matrices.MultiplyMvRowMajor | Phase 1/MatrixOps.cpp:8-27 | every entry is the plain dot product of its row; rejected arguments leave the result alone |
| Matrices.DotProductUnrolled | Phase 1/MatrixOps.cpp:29-49 | four accumulators and a remainder give the plain dot product for every length |
| Matrices.MultiplyMvRowMajorOptimised | Phase 1/MatrixOps.cpp:51-67 | the unrolled kernel meets the plain kernel's specification |
| Matrices.MultiplyMvColMajor | Phase 1/MatrixOps.cpp:69-90 | column-by-column accumulation ends with each entry a dot product over the column-major layout |
| Matrices.ColumnMajorAgrees | Phase 1/MatrixOps.cpp:85-89 | on a re-laid-out matrix that is the row-major result |
| Matrices.MultiplyMmNaive | Phase 1/MatrixOps.cpp:115-142 | every entry is row times column; rejected arguments leave the result alone |
| Matrices.MultiplyMmTransposedB | Phase 1/MatrixOps.cpp:158-182 | every entry is row times stored row |
| Matrices.TransposedProductAgrees | Phase 1/MatrixOps.cpp:158-208 | with matching inner dimensions the transposed form on the transpose equals the naive product, entry by entry |

## Left out

- Sockets, threads, the latch, sleeps, clocks, logging and random generators are not modelled; random choices are arbitrary inputs.
- Prices and matrix entries are exact reals: floating-point rounding, NaN and overflow are not modelled, nor is `int` wrap-around of ids and quantities.
- UDP loss and reordering are not modelled; the message is shown to fit one datagram.
- TickLoop.RunTicks: the order manager that creates each order, and the trade log, are not part of this model; the tick's order is a parameter.
- Orders.Order.Set: stands for both the setter and the constructor that the pool calls in place, which assign the same fields; `cancel` is left out.
- MatchingEngine.Engine.MatchOrders: asks that the loop ends on the book, since a method must; `Crossings.EndsOnAnyBook` says when. The whole-call results of `MatchTheorems`, `Priority` and `Fills` are for books whose orders have something left, which every run of legal operations keeps.
- Crossings.EndsExactly: says nothing of books in which an order of negative quantity rests, or one that a trade with a negative order has filled below 0.
- OrderBook.LimitOrderBook.AddOrder: asks that the id is not resting, as the header demands of callers (`Phase_4/include/OrderBook.hpp:28`).
- RecentPool.OptimizedOrderBook.HandleOrder: the pool size is positive; with size 0 the code would write to an empty pool.
- RingProtocol.SingleProducerSingleConsumer: one producer and one consumer only, because the algorithm supports no more (`RingThreads.FifoExactly`).
- RingThreads.FifoExactly: every index load returns the newest store, so stale loads by several threads are not modelled; the runs that fail are runs under every memory order, and for one producer and one consumer `RingProtocol` adds the stale loads.
- RingQueue.ConcurrentQueue.Push: the six experimental functions, used by one thread, are the instruction sequences of `Push` and `Pop` with other memory orders and are not written again.
- Pipeline.EveryRunKeeps: each queue operation is one atomic step, since the ring itself does not support several consumers; a push waits while the ring is full.
- Server.ChallengeServer.ProcessOrder: submitted prices are exact, without the range of `double`; a response whose id or prices fail to be read counts as matching nothing, where the code goes on with zeros or with variables it never set.
- EndToEnd.HonestReplyWins: judges the first line the server gets; a trader name with line feeds in it sends further lines, which are not followed.
- Matrices.MultiplyMvRowMajor: the result must not be the same array as an argument, which holds for the other kernels too; the code does not check it.
- The inlined copies of the column-major and transposed kernels have the loops of the originals and are not written again; the naive inline form checks its arguments and computes nothing.
- The Phase 2 socket programs, the Phase 3 snapshot and order manager, which keep maps of price levels and orders, the Phase 4 order manager, analytics and benchmarks, which summarise times, market-data simulation, printing of the book and the unfinished trade engine of the final project, whose files do not fit together, are not part of this model.
