# Verified models of the operating-systems course programs

A Dafny 4.11 project that models the programs' hard cores and proves what they are for. `dafny verify
dfyconfig.toml` checks everything.

| file | models |
|---|---|
| `Machine.dfy`, `BitRanges.dfy`, `BinArray.dfy` | `BinArray/BinArray.c`: little-endian memory, what a range operation means on a list of bits, and the class whose methods are the C functions |
| `Transfer.dfy`, `Rendezvous.dfy`, `Completion.dfy` | `FWRonSemShm/wrrd.cpp`: one writer and one reader on a shared block; any number of both meeting through semaphores; what their whole runs end with |
| `Pipeline.dfy`, `LocalProxy.dfy` | `Proxy/LocalProxy.cpp`: a line of byte queues; the server's buffers and poll loop on top of it |
| `SignalLink.dfy` | `Signal/wrrd.cpp`: one bit per signal |
| `TokenChain.dfy` | `GenChildPrnt1_n/main.cpp`: numbered children printing in order |
| `Integral.dfy`, `Topology.dfy` | `HPC_Integral/lib`: threaded integration; the order of logical CPUs |
| `Cluster.dfy`, `Sockets.dfy` | `HPC.Net/lib/hpc_net.c`: the split over machines; whole messages over a stream |
| `Common.dfy` | two definitions several of these share |

## How the programs are modelled

**Undefined steps are results, not preconditions.** The C code shifts by 64, forms pointers behind a
buffer and overflows `ssize_t` for some arguments its checks accept. Such a call ends in
`Outcome.Undefined`, a refusal (-1 or NULL) in `Refused`, and each contract says with "if and only if"
which arguments lead where. What the methods promise is proved for `Done`.

**The bit array.** `baFindOne`/`baFindZero` and `baFillOne`/`baFillZero` differ only in the bit they are
about and take it as the parameter `v`. Where the code does not do what the interface suggests, the code
is kept and the exact condition proved:

- `baCheckCalcArg` adds in `size_t`, so a huge `begin` with a large `len` wraps around and is accepted.
- The getters' guard uses `>`, so index `num_bits` itself is accepted; it is outside the buffer exactly
  when `num_bits` is a multiple of 64.
- A search compares the offset inside a word with the length left, counts words in 32 bits and computes
  `64 * i` in 32 bits. `FindExact` says exactly when the answer is the right one, `FindStray` shows an
  answer that is not, and `FindOneToTheEnd` the advertised case in which it always is.
- `baInvert` clears the neighbours of the range in its two boundary words, and its loop takes the inner
  words off the length once per word. `Invertible` is the exact condition under which it still ends in
  a defined state: 0 or 1 inner words modulo 4, and no overflow (`WholeInversion` for the whole array).
  Its `*buf++ = ~*buf` is read as "load, then advance".
- `baGetSubArray` writes behind the copy or reads behind the source exactly for the ranges in `Overruns`;
  `OverrunningRange` is one, and `NoWholeInversion` a size that `baInvert` does not handle as a whole.

- The bits behind the array stay clear under fills, inversions and writes inside the array. A write at
  `num_bits`, `baGetInvert` and `baGetSubArray` can set them; the contracts say exactly when.

Whether `calloc` succeeds is an input (`granted`); it never does beyond 2^57 bytes.

**Protocols** are state machines: a step is one system call or one test of shared state, a run is any
list of steps, and a step that is not possible does not happen. The theorems hold for every run.

- In the semaphore program a reader looks at the shared size after it has given the slot back. This is
  harmless unless a `read` fails: then -1 is stored there and the reader leaves normally with part of
  the file printed (`FailedReadTruncates`). Without a failed read a reader that leaves its loop has
  printed the whole file; `Safe` has the exact condition, a `read` that failed before the end of the file (`cutShort`).
- In the signal program every signal is blocked except inside `sigsuspend`. Which of several pending
  signals are handled there is left open, so the theorems hold for any choice.
- In the proxy the kernel's answers and the clients' own steps are inputs of the poll loop: short reads
  and writes, EAGAIN, hang-ups. `channels[-1]`, which the loop reads for channel 0, has no influence and
  is left out. Client 0 announces the file size after it has passed on the last byte.

**Arithmetic of the integrals** is over exact reals. With an `eps` that is not positive the loops never
get from a to b (`NeverReaches`); the methods then answer that they do not end. The cluster ignores the
function it is given and always integrates x. A client that gets no thread sends no answer, so the
server's read fails; an empty interval, or a step of 0, makes a NaN of every share.

**CPU order.** What `qsort` leaves behind is a parameter, required to be a sorted permutation. A core id
below zero is never placed and keeps the loop turning for ever; the model notices a turn that changes
nothing and answers `Hangs`.

## Model

| member | source | states |
|---|---|---|
| Machine.BitOfByte | BinArray/BinArray.c:281-284 | bit k of a buffer is bit k % 8 of byte k / 8 |
| Machine.BitOfWord | BinArray/BinArray.c:392-396 | the same list of bits seen through 64-bit little-endian loads |
| Machine.Memory.Read | BinArray/BinArray.c:238-250 | a load of any width yields exactly the addressed bits |
| Machine.Memory.Write | BinArray/BinArray.c:238-250 | a store of any width changes exactly the addressed bits |
| Machine.Memory.Set | BinArray/BinArray.c:522 | `memset` sets exactly the addressed bits |
| Machine.LowestSet | BinArray/BinArray.c:383-385 | the answer is -1 exactly without a set bit, otherwise a set bit with none below |
| BitRanges.Units | BinArray/BinArray.c:58-63 | the least number of units that holds the bits |
| BitRanges.Mask | BinArray/BinArray.c:492-497 | the mask has exactly bits rshift to rshift + len |
| BitRanges.BlendedBits | BinArray/BinArray.c:507-510 | masking a word writes exactly the range within it |
| BitRanges.InvertedAt | BinArray/BinArray.c:653 | inverting flips the range, clears the rest of its boundary words and keeps every other bit |
| BitRanges.InvertedTwice | BinArray/BinArray.c:643-679 | inverting twice restores the range and every bit outside its boundary words |
| BitRanges.WantedBits | BinArray/BinArray.c:449-451 | the arithmetic shift keeps the word's own bits and can only repeat its top one |
| BitRanges.FirstInWord | BinArray/BinArray.c:396-398 | the shifted word's lowest wanted bit is the first one of the range in it; sign copies never invent one |
| BitRanges.FindsWhatIsThere | BinArray/BinArray.c:387-485 | in a range of at most 2^32 bits a wanted bit is always found, and the first one |
| BitRanges.FindExact | BinArray/BinArray.c:400-431 | the search answers the least wanted index, or -1 exactly without one, if and only if `FindsRight` |
| BitRanges.CopiedUnit | BinArray/BinArray.c:237-241 | a shifted load and store brings all but the top rshift bits to their place, whatever was stored before |
| BitRanges.PlanFacts | BinArray/BinArray.c:231-247 | the byte counts of the copy add up, and the count of 2-byte steps is -1 exactly in the overrunning corner |
| BinArrays.BinArray.Create | BinArray/BinArray.c:147-167 | an array exactly if there is memory and the size is above 0 and below 2^60 bits; it has the given size and only zeros, padding included |
| BinArrays.BinArray.CheckRange | BinArray/BinArray.c:104-122 | exactly the ranges inside the array pass, except that a wrapped sum passes too |
| BinArrays.BinArray.GetValue | BinArray/BinArray.c:286-299 | the bit asked for; exactly which indices are refused or outside the buffer |
| BinArrays.BinArray.SetValue | BinArray/BinArray.c:320-366 | exactly one bit changes; exactly which indices are refused or outside the buffer, and which dirty clear padding |
| BinArrays.BinArray.Fill | BinArray/BinArray.c:499-562 | exactly the bits of the range get the value, padding and everything else stays; undefined exactly for empty or wrapped ranges; clear padding stays clear |
| BinArrays.BinArray.FillMany | BinArray/BinArray.c:512-527 | first word, whole words and last word together are one fill of the range |
| BinArrays.BinArray.Find | BinArray/BinArray.c:387-485 | the word-by-word search computes `FindAnswer`, inside the buffer, for every accepted range |
| BinArrays.BinArray.FindFrom | BinArray/BinArray.c:419-431 | the loop over whole words stops at the first wanted bit of all of them |
| BinArrays.FindOneToTheEnd | BinArray/BinArray.c:387-432 | with clear padding and at most 2^32 bits the search for ones to the end is exact |
| BinArrays.FindStray | BinArray/BinArray.c:428 | an answer behind the range: the guard compares only the offset inside the word |
| BinArrays.BinArray.Invert | BinArray/BinArray.c:643-679 | defined exactly for `Invertible` ranges, and then the buffer is the inverted one, with clear padding still clear |
| BinArrays.BinArray.InvertWords | BinArray/BinArray.c:667-673 | the loop inverts the inner words and leaves the over-reduced length, defined exactly without signed overflow |
| BinArrays.BinArray.LeftOver | BinArray/BinArray.c:669-675 | the over-reduced length still yields the right mask exactly for 0 or 1 inner words modulo 4 |
| BinArrays.InvertibleRanges | BinArray/BinArray.c:643-679 | exactly which ranges `baInvert` handles, by the number of 64-bit words they touch |
| BinArrays.WholeInversion | BinArray/BinArray.c:643-679 | exactly which array sizes `baInvert (arr, 0, -1)` handles |
| BinArrays.NoWholeInversion | BinArray/BinArray.c:667-676 | 200 bits are a size that `baInvert (arr, 0, -1)` does not handle |
| BinArrays.InversionsAgree | BinArray/BinArray.c:643-717 | copy and in-place inversion flip every bit and agree; twice in place restores |
| BinArrays.BinArray.GetInvert | BinArray/BinArray.c:680-717 | if there is memory, a fresh array with the used bytes inverted and the rest zero; its padding is clear exactly for whole bytes |
| BinArrays.BinArray.SubArray | BinArray/BinArray.c:215-262 | a fresh array whose bit k is bit begin + k; exactly when there is none, when an access leaves a buffer, and what its padding holds |
| BinArrays.OverrunningRanges | BinArray/BinArray.c:228-259 | exactly which copies leave a buffer: those of whole sevens of bytes, from 14 on, spread over one byte more, with no spare byte behind them or the source |
| BinArrays.OverrunningRange | BinArray/BinArray.c:245-256 | a range of 112 bits whose copy reads behind the source |
| BitRanges.ClearCopy | BinArray/BinArray.c:228-259 | a copy's padding is clear exactly if the bits copied along from behind the range are |
| BinArrays.BinArray.CopyShifted | BinArray/BinArray.c:230-259 | 7-byte steps, 1-byte steps and the last byte together copy the shifted range, defined exactly outside the corner |
| BinArrays.BinArray.CopySteps | BinArray/BinArray.c:237-253 | overlapping stores extend what has arrived by one stride each, within both buffers, and set nothing further on |
| Transfer.StepKeeps | FWRonSemShm/wrrd.cpp:48-54 | every step keeps the slot token single and file = printed + pending + unread |
| Transfer.TransferIsSafe | FWRonSemShm/wrrd.cpp:103-109 | in every interleaving stdout is a prefix of the file, nobody shares the block, and a reader out of its loop has printed the whole file if and only if no `read` failed before its end |
| Transfer.FailedReadTruncates | FWRonSemShm/wrrd.cpp:51 | a run in which a failing `read` makes the reader leave normally with half the file |
| Transfer.Leaving | FWRonSemShm/wrrd.cpp:49-51 | a reader waiting for FULL and a writer waiting for EMPTY can time out, and not when they can go on; a writer at `read` can fail |
| Transfer.BlockSizes | FWRonSemShm/wrrd.cpp:51 | a `read` brings 1 to 4096 bytes, and 0 exactly at the end of the file |
| Transfer.StepFalls | FWRonSemShm/wrrd.cpp:48-112 | every step uses up some of a bound on the steps left, so every transfer ends |
| Transfer.NeverStuck | FWRonSemShm/wrrd.cpp:48-112 | until both have finished some step other than a timeout or failure is possible |
| Rendezvous.TokenHolder | FWRonSemShm/wrrd.cpp:24-34 | a process can move in the handshake only if the one token is where its program point needs it |
| Rendezvous.SemaphoresKept | FWRonSemShm/wrrd.cpp:22-34 | every handshake step keeps the four semaphores in line with the token, mutual exclusion included |
| Rendezvous.IdsKept | FWRonSemShm/wrrd.cpp:24-34 | every handshake step keeps the writers' ids different and given away only by the handshake |
| Rendezvous.CoveredKept | FWRonSemShm/wrrd.cpp:79-92 | a reader gets past `P (W_READED)` only after a writer took its id |
| Rendezvous.StepKeepsGood | FWRonSemShm/wrrd.cpp:22-109 | every step of every process, handshake or transfer, keeps the system invariant |
| Rendezvous.RendezvousIsSafe | FWRonSemShm/wrrd.cpp:22-109 | in every run of any number of readers and writers: one token, no id taken twice, each reader past the handshake has one writer and prints only its file, and SETALL acts as `V (EMPTY)` |
| Completion.SystemStepFalls | FWRonSemShm/wrrd.cpp:22-112 | every step of every process, handshake or transfer, uses up some of a bound on the steps left |
| Completion.RunIsBounded | FWRonSemShm/wrrd.cpp:22-112 | every run of the whole system is at most as long as that bound |
| Completion.MaximalRunDelivers | FWRonSemShm/wrrd.cpp:22-112 | a run without timeouts and failed reads that cannot go on has all readers or all writers through the handshake, and every reader that was met has printed the whole file of its writer |
| Rendezvous.HandshakeProgress | FWRonSemShm/wrrd.cpp:22-92 | the handshake jams only for want of a reader or of a writer |
| Pipeline.MoveKeepsFlow | Proxy/LocalProxy.cpp:195-249 | passing bytes from any stage to the next loses, doubles and reorders nothing |
| Pipeline.MovesCommute | Proxy/LocalProxy.cpp:219-236 | steps at different stages commute, so client steps inside a write loop may be thought of as after it |
| Pipeline.MoveIsWork | Proxy/LocalProxy.cpp:195-249 | every byte moved takes exactly one off the work left |
| Pipeline.NoDeadlock | Proxy/LocalProxy.cpp:162-173 | while a byte is undelivered some stage can pass bytes on, for any number of stages |
| Pipeline.EveryRunDelivers | Proxy/LocalProxy.cpp:161-249 | every run is at most 3n steps per byte long, and one that cannot go on has delivered the whole file |
| LocalProxy.TotalFitsInt | Proxy/LocalProxy.cpp:83-91 | the sum of the buffer sizes fits an int exactly up to 12 clients |
| LocalProxy.SizesInBytes | Proxy/LocalProxy.cpp:5-10 | the last buffer has 3000 bytes, every other one three times as many as the next |
| LocalProxy.ProxyServer.Carve | Proxy/LocalProxy.cpp:100-105 | the buffers lie side by side in one block of exactly their total size |
| LocalProxy.ProxyServer.constructor | Proxy/LocalProxy.cpp:12-108 | the server starts with disjoint buffers, the whole file unread, and empty buffers, pipes and stdout |
| LocalProxy.ProxyServer.Fill | Proxy/LocalProxy.cpp:195-201 | a read moves bytes from a client's pipe to its buffer and overwrites no byte still to be sent |
| LocalProxy.ProxyServer.Send | Proxy/LocalProxy.cpp:223 | writing bytes of the buffer, where they are the next ones of the stage, moves that stage forward |
| LocalProxy.OnePiece | Proxy/LocalProxy.cpp:216-235 | one `write` sends what the kernel takes of at most 16 bytes, and EAGAIN ends the loop |
| LocalProxy.WholePieces | Proxy/LocalProxy.cpp:216-235 | k writes taken whole send 16 * k bytes, or all there are |
| LocalProxy.AllAccepted | Proxy/LocalProxy.cpp:216-235 | the loop empties the buffer if the kernel always takes something |
| LocalProxy.ProxyServer.Print | Proxy/LocalProxy.cpp:203-209 | the bytes at `m_buf` go to stdout, are the next ones of the file, and `counter` keeps up |
| LocalProxy.ProxyServer.WritePieces | Proxy/LocalProxy.cpp:216-235 | how many bytes the 16-byte write loop gets rid of, for any answers of the kernel, and that the bytes at the moving pointer are the next ones of the file |
| LocalProxy.ProxyServer.Drain | Proxy/LocalProxy.cpp:214-244 | after the write loop the unsent rest, and only it, is still addressed, in this and every other buffer |
| LocalProxy.ProxyServer.Serve | Proxy/LocalProxy.cpp:195-244 | exactly which bytes a visit to a channel reads, prints and writes |
| LocalProxy.ProxyServer.ServedIsWork | Proxy/LocalProxy.cpp:195-244 | a visit never adds work and takes some off if it moves a byte |
| LocalProxy.ProxyServer.Visit | Proxy/LocalProxy.cpp:190-244 | a visit answers hang-up exactly if the channel has hung up, and otherwise reads, prints and writes exactly what `Served` says; if the channel was reported something moves forward |
| LocalProxy.ProxyServer.Turn | Proxy/LocalProxy.cpp:161-248 | the line after a turn, for any events; it answers hang-up exactly if some channel has hung up, stores the file size exactly when it can be read, keeps every byte of the file in the line, in order, and moves something forward if `poll` reported any channel |
| LocalProxy.ProxyServer.SendFile | Proxy/LocalProxy.cpp:130-252 | stdout is always a prefix of the file and `counter` its length; the loop ends at the first turn with a hang-up, or as soon as the size is known and the whole file on stdout, and not otherwise; it goes on only for as many turns as there is work, besides those in which `poll` reports no channel |
| LocalProxy.TraceBound | Proxy/LocalProxy.cpp:161-249 | a run of the loop has no more turns than work, besides the quiet ones |
| LocalProxy.ProxyServer.Relay | Proxy/main.cpp:37-58 | server start and transfer together: when it ends, how, and with what on stdout, and at most 3n turns per byte of the file and one more, if `poll` returns only with something to report |
| LocalProxy.QuietOnce | Proxy/LocalProxy.cpp:176-186 | of truthful turns only the one that reads the file size can be quiet |
| LocalProxy.ProxyServer.PollWakes | Proxy/LocalProxy.cpp:162-176 | while the file is not delivered, a client can forward or `poll` reports a channel it was asked about |
| SignalLink.ShiftedToSend | Signal/wrrd.cpp:132 | the arithmetic shift brings up the next bit of the byte, negative bytes included |
| SignalLink.StoredReceived | Signal/wrrd.cpp:64 | or-ing a bit in appends it to the bits received |
| SignalLink.InFlightKept | Signal/wrrd.cpp:66-141 | every step keeps at most one bit unacknowledged |
| SignalLink.StepKeeps | Signal/wrrd.cpp:53-144 | every step keeps received a prefix of the file's bits and to-send the rest |
| SignalLink.EveryRunIsFaithful | Signal/wrrd.cpp:52-147 | in every run the output is a prefix of the file, no signal merges with a pending one, a writer that may wait has its alarm running or pending, and after a normal end the output is the file |
| SignalLink.TimesOut | Signal/wrrd.cpp:121-140 | every run that leaves the writer waiting can go on, without the reader, to one in which it has returned -1 |
| SignalLink.AlarmWins | Signal/wrrd.cpp:134-140 | a wait in which the alarm is handled ends in -1, whatever else is handled, and any other goes on |
| SignalLink.Reading | Signal/wrrd.cpp:114-116 | a `read` brings 1 to 4096 bytes, and 0 exactly at the end of the file; it can fail, and the writer returns -1 |
| SignalLink.StepFalls | Signal/wrrd.cpp:52-147 | every step uses up some of a bound on the steps left, so every run ends |
| SignalLink.NeverStuck | Signal/wrrd.cpp:52-147 | until both have returned something other than the alarm or an error can happen |
| SignalLink.UndisturbedRunDelivers | Signal/wrrd.cpp:52-147 | a run without alarm and read error that cannot go on has printed the whole file, and both processes have returned |
| TokenChain.StepKeeps | GenChildPrnt1_n/main.cpp:25-67 | every step keeps the printed numbers 1..p and at most the message of child p queued |
| TokenChain.StepFalls | GenChildPrnt1_n/main.cpp:25-67 | every step makes the measure smaller |
| TokenChain.EveryRunIsOrdered | GenChildPrnt1_n/main.cpp:25-67 | for every n and run: at most 4n + 4 steps, output a prefix of 1..n, one message, and the queue removed only after every child has sent |
| TokenChain.StuckIsFinished | GenChildPrnt1_n/main.cpp:25-67 | a state of the invariant in which nothing can happen is final |
| TokenChain.MaximalRunIsFinished | GenChildPrnt1_n/main.cpp:25-67 | a run that cannot go on has printed everything and the parent has returned, or, exactly if a `fork` failed in it, the children there are have printed |
| TokenChain.ForkCanFail | GenChildPrnt1_n/main.cpp:26-35 | until all children are there a `fork` can fail, and leaves them as they were |
| Integral.Before | HPC_Integral/lib/hpc.c:120-123 | a sample point lies before b exactly when its number is below the rounded-up quotient |
| Integral.SumIs | HPC_Integral/lib/hpc.c:120-123 | the samples are those before b, whether the step divides the interval or not |
| Integral.CalcLoop | HPC_Integral/lib/hpc.c:71-131 | exactly when the loop ends; then it has added up the samples before b, every one and no other |
| Integral.NeverReaches | HPC_Integral/lib/hpc.c:120-123 | a step that is not positive never gets from a to b |
| Integral.Evaluations | HPC_Integral/lib/hpc.c:453-459 | the single loop makes exactly ceil (1 / eps) evaluations, at a and each (b - a) * eps further on; where f is 1 it adds up to that number |
| Integral.ThreadEvaluations | HPC_Integral/lib/hpc.c:234-246 | each of T threads makes exactly ceil (1 / (eps * T)) evaluations from its own first point on; where f is 1 they add up to T times that |
| Integral.HpcSimpleIntegral | HPC_Integral/lib/hpc.c:447-462 | exactly when it ends, and the signed left-point sum |
| Integral.Integral | HPC_Integral/lib/hpc.c:204-280 | exactly when it ends, and the signed sum of the threads' sums, each on its own part |
| Integral.IntegralLinear | HPC_Integral/lib/hpc.c:284-396 | the same value, whatever the dummy threads compute; all threads, as many as there are logical CPUs, make equally many evaluations, and the dummies cover the interval once more |
| Integral.SamplesSplit | HPC_Integral/lib/hpc.c:120-123 | sampling in two stretches is sampling in one |
| Integral.WhenThreadsAgree | HPC_Integral/lib/hpc.c:204-462 | threads and single loop agree for every function if and only if 1 / (eps * threads) is a positive integer, there is one thread, or a = b |
| Integral.ErrorOfX | HPC_Integral/lib/hpc.c:447-462 | for f (x) = x and 1 / eps an integer the error is exactly (b - a)^2 * eps / 2, with its sign |
| Topology.Take | HPC_Integral/lib/cpu_topology.c:293-299 | placing a CPU keeps the scan invariant and never goes past the array |
| Topology.RoundOver | HPC_Integral/lib/cpu_topology.c:291-300 | after a full scan every core has had its turn or has no CPU left |
| Topology.SortUniqSetsCoreId | HPC_Integral/lib/cpu_topology.c:275-303 | a permutation, fair in every prefix, in which every core's CPUs keep their order; it ends if and only if no core id is negative |
| Topology.FairShares | HPC_Integral/lib/cpu_topology.c:291-300 | in a fair prefix two cores differ by at most one CPU unless the smaller has none left |
| Topology.FirstOnDifferentCores | HPC_Integral/lib/cpu_topology.c:291-300 | the first CPUs, as many as there are cores, are on different cores |
| Topology.GetNumCoreCPU | HPC_Integral/lib/cpu_topology.c:315-337 | the number of different core ids, within the mask if and only if every id is below the number of CPUs |
| Topology.Distribute | HPC_Integral/lib/hpc.c:173-197 | thread t is pinned to CPU t modulo the number of CPUs |
| Topology.SlotsEven | HPC_Integral/lib/hpc.c:173-184 | of T threads every slot gets floor (T / n) or one more |
| Topology.PlacedEvenly | HPC_Integral/lib/hpc.c:173-197 | every logical CPU occurs floor (T / n) times or once more among the ids the threads are pinned to |
| Topology.PlacedSpread | HPC_Integral/lib/hpc.c:173-197 | the first threads, as many as there are cores, are pinned to different cores |
| Topology.PlacedEvenlyOnCores | HPC_Integral/lib/hpc.c:173-197 | cores with equally many CPUs have equally many threads pinned to them, give or take one |
| Topology.PlaceThreads | HPC_Integral/lib/hpc.c:402-424 | reordering, core count and pinning together: every CPU gets its share, equal cores are loaded equally, the first threads have cores of their own, as many as there are; the count is that number exactly if every core id is below the number of CPUs |
| Topology.EqualCoresEvenLoad | HPC_Integral/lib/hpc.c:173-184 | after the reordering cores with equally many CPUs stay within one thread of each other |
| Cluster.ComputeUnit | HPC.Net/lib/hpc_net.c:502-552 | what a machine answers, for either integrand: nothing, a NaN, never, or the threaded integral with the step recovered from what it was sent |
| Cluster.AnyIntegrand | HPC.Net/lib/hpc_net.c:502-517 | for x and x * x a machine answers what its threads add up at exactly the step it was sent, negated for a task that runs downwards |
| Cluster.TasksTile | HPC.Net/lib/hpc_net.c:583-599 | the pieces sent out lie end to end from a to b and use every thread once |
| Cluster.ValuesUp | HPC.Net/lib/hpc_net.c:583-616 | for a < b the first c machines have added up what the threads before theirs would |
| Cluster.ValuesDown | HPC.Net/lib/hpc_net.c:583-616 | the same for b < a, from the top |
| Cluster.SameAsOneMachine | HPC.Net/lib/hpc_net.c:554-619 | the machines together compute what one machine with all the threads would |
| Cluster.WhoGetsThreads | HPC.Net/lib/hpc_net.c:566-585 | every client gets a thread if and only if there are as many threads as clients, the server if there are more |
| Cluster.HpcnetCalcIntegral | HPC.Net/lib/hpc_net.c:554-619 | exactly when the call fails or never comes back, and otherwise the single-machine integral, added to the initial `*result` if the server has no share |
| Sockets.Writen | HPC.Net/lib/hpc_net.c:302-321 | exactly the bytes moved before a call moved nothing are sent; it succeeds exactly if these are the whole message, and not an empty one |
| Sockets.StopsAtZero | HPC.Net/lib/hpc_net.c:310-314 | a call that moves nothing ends the transfer: just what the calls before it moved has been moved |
| Sockets.Readn | HPC.Net/lib/hpc_net.c:323-342 | exactly the bytes the calls before an empty one bring are taken, in order and none of the next message; it succeeds exactly if these are as many as asked for, and not none |
| Sockets.Exchange | HPC.Net/lib/hpc_net.c:302-342 | what was written is what is read, however the stream breaks it up, and the message behind is untouched |

## Left out

- Cluster.HpcnetCalcIntegral: says nothing about `*result` after a failure, where the code leaves a partial sum; a server parameter that fails `ServParamIsFull`, for which the code turns NAN into an int, is not modelled.
- LocalProxy.ProxyServer.SendFile: sends one file; the path travelling to client 0 and `open` are not modelled, and writes to stdout are complete.
- LocalProxy.ProxyServer.PollWakes: holds for clients that are alive; a client whose `splice` fails exits and the server then sees a hang-up.
- Transfer.NeverStuck: allows a writer to end in an error when the reader has already removed the semaphores, as the code does.
- Rendezvous.RendezvousIsSafe: processes do not crash inside the handshake; SEM_UNDO adjustments and failing shared-memory calls are not modelled.
- Topology.SortUniqSetsCoreId: the sort itself is a parameter; its comparator never returns a negative value, so the C library promises less.
- BinArrays.BinArray.Create: NULL array arguments and `baResize`, `baDestroy`, `baGetClone`, `baForeach` and the dumps are left out.
- `baFind`, which ignores its range, and the full fills: they are other operations with fixed arguments.
- Floating-point rounding: sums and steps are exact reals.
- Error returns of `pthread_create`, `pthread_join` and the affinity calls, and thread scheduling: the threads share nothing.
- Discovery, port binding, keep-alive and timeouts of HPC.Net; /sys parsing; `Proxy/CircBuffer.cpp`, SuperFIFO, Task2FD and the other exercises: plumbing or code that is not used.
