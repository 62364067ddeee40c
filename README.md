# loser: a Dafny model of the echo probes and the interface poller

`loser` is a small network probe. For every address on its command line it
runs a TCP client and a UDP client against an echo server. Every 10 ms each
client sends the decimal text of an incrementing sequence number. It reads
the echo back and counts each exchange as received, out of order or lost.
The counts are published as four per-address Prometheus counters. The TCP
client reports its cumulative counts once a second. The UDP client reports
the change since its previous report: once when its session starts, every
five seconds, and when it returns. The same process also polls `/sys/class/net` once a second. It
keeps 27 counters per network interface, creating them when an interface
appears and deleting them when it vanishes.

This project models four pieces of that program:

- the send/verify loop shared by both clients (`Exchange`, `TcpClient`, `UdpClient`);
- the UDP client's delta reporter (`UdpClient`);
- the per-address counters that both reporters feed, with the sanitised counter names (`ProbeMetrics`);
- the sysfs snapshot `GetNetworkInterfaces` (`NetworkInterfaces`), and the poller that turns snapshots into the interface counter table (`InterfaceMetrics`).

It also models `strconv.ParseInt(s, 10, 64)`, `%d` formatting and
`strings.TrimSpace` (`GoText`).

I/O is replaced by its outcomes:

- **The clients.** A client after its dial is a method over a sequence of *events*. At each loop head the context is cancelled (`Cancelled`), or the reporter runs (`ReportTick`), or the send ticker fires (`SendTick`). `SendTick` carries the outcome of the deadline calls, of the write (success, EOF, other error) and of the read (the bytes read, EOF, other error).
- **The loop body.** Each client's loop is proved equal to `Exchange.Run`, a left fold of the loop body `Exchange.Step` over those events. The properties are then proved about `Run`.
- **The file system.** It is a map from directory paths to listings plus a map from file paths to contents. A path missing from the map is one that `os.ReadDir` or `os.ReadFile` fails on.
- **The interface counters.** main.go keeps its registered Prometheus counters in a `counters` map under `"<name>_<Field>"` keys (main.go:36); the metrics themselves are registered under snake_case names such as `<name>_rx_bytes`. The model keeps a table of integer counters keyed by (interface name, field), rendered to the `counters` map's string keys by `InterfaceMetrics.Table`. Distinct pairs are proved to give distinct strings (`KeyInjective`).

To verify the project, give all of its `.dfy` files to `dafny verify` in one command.

## Model

| member | source | states |
|---|---|---|
| GoText.ParseInt | pkg/packets/tcp_client.go:129 | a parsed value always lies in the signed 64-bit range |
| GoText.ParseIntMeaning | pkg/network_interfaces/network_interfaces.go:103-111 | an empty text, a lone sign, or any non-digit after the optional sign gives no value; digits with an optional `+` or `-` give their signed value exactly when it fits in 64 bits, and no value otherwise |
| GoText.FormatNat | pkg/packets/tcp_client.go:101 | the decimal text is non-empty, all digits, and has no leading zero |
| GoText.FormatInt | pkg/packets/udp_client.go:140 | the `%d` text is non-empty, starts with `-` exactly for a negative number, and is all digits after that sign; `ParseFormatted` shows that it parses back to the number |
| GoText.ParseFormatRoundTrip | pkg/packets/tcp_client.go:101-129 | parsing the `%d` text of any int64 gives that number back |
| GoText.ParseFormatInjective | pkg/packets/tcp_client.go:129-135 | the `%d` text of m parses to n exactly when m == n |
| GoText.ParseFormatted | pkg/packets/tcp_client.go:101-129 | the `%d` text of any integer parses to itself inside the int64 range and fails outside it |
| GoText.TrimSpace | pkg/network_interfaces/network_interfaces.go:100 | the result is no longer than the input and neither starts nor ends with white space |
| GoText.TrimSpaceSlice | pkg/network_interfaces/network_interfaces.go:100 | the result is the middle slice of the input, and everything cut off on either side is white space |
| GoText.TrimSpaceIdempotent | pkg/network_interfaces/network_interfaces.go:137 | trimming a trimmed text changes nothing |
| Exchange.Step | pkg/packets/tcp_client.go:79-141 | one loop pass never decreases a counter; it keeps `sent == received + outOfOrder + lost` when the loop goes on; it raises `sent` by exactly 1 when the deadlines were set and leaves it alone otherwise |
| Exchange.StepWrites | pkg/packets/tcp_client.go:99-101 | a pass that gets past the deadlines writes the decimal text of the new `sent`; any other pass writes nothing |
| Exchange.StepCancelled | pkg/packets/tcp_client.go:80-82 | cancellation returns nil with every counter unchanged and nothing written |
| Exchange.StepDeadlineFailed | pkg/packets/tcp_client.go:89-97 | a failed deadline call returns the error before `sent++`, with nothing counted or written |
| Exchange.StepWriteOutcomes | pkg/packets/tcp_client.go:102-112 | a non-EOF write error adds one to `lost` and continues; an EOF on write returns nil with only `sent` changed |
| Exchange.StepReadOutcomes | pkg/packets/tcp_client.go:114-125 | a non-EOF read error adds one to `lost` and returns the error; an EOF on read returns nil without counting a loss |
| Exchange.StepEchoOutcomes | pkg/packets/tcp_client.go:127-140 | an echo that parses to `sent` adds one to `received`; any other integer adds one to `outOfOrder`; an unparsable echo returns an error with only `sent` changed |
| Exchange.StepExactEcho | pkg/packets/tcp_client.go:99-136 | an echo of exactly the written text counts as received and the loop goes on |
| Exchange.StepStaleEcho | pkg/packets/tcp_client.go:129-138 | an echo of any other int64 counts as out of order and the loop goes on |
| Exchange.SendAndVerify | pkg/packets/udp_client.go:125-179 | the UDP client's statements after the send ticker fires, on its four counter locals, compute exactly `Step` |
| Exchange.Apply | pkg/packets/tcp_client.go:79-141 | one loop pass or report never lowers a counter, appends at most one payload to those written and at most one snapshot to those reported; `ApplyInvariant` shows it keeps the session invariant |
| Exchange.Run | pkg/packets/tcp_client.go:79-141 | the counters after any events are nonnegative, with at most one payload written and one report taken per event; `RunInvariant`, `RunMonotone` and `RunStopped` state the rest |
| Exchange.RunNext | pkg/packets/tcp_client.go:79-84 | while the loop is running, one more event is one more application of the loop body |
| Exchange.RunStopped | pkg/packets/tcp_client.go:82 | once the loop has returned, later events change nothing |
| Exchange.ChainOrdered | pkg/packets/tcp_client.go:66-75 | in a monotone chain of snapshots, each one is below every later one |
| Exchange.RunInvariant | pkg/packets/tcp_client.go:79-141 | at every loop head, while running: `sent == received + outOfOrder + lost`, all counters nonnegative, the payloads written are "1", "2", … up to `sent`; every reporter snapshot is balanced, the snapshots only increase, and none exceeds the current counters |
| Exchange.ApplyInvariant | pkg/packets/udp_client.go:118-180 | one more loop pass, or one more report, keeps that invariant |
| Exchange.RunMonotone | pkg/packets/tcp_client.go:79-141 | the counters after any prefix of the events are below the counters after all of them |
| Exchange.RunPerfectEchoes | pkg/packets/tcp_client.go:99-140 | N passes whose echoes reflect what was written give `sent == received == N` and `outOfOrder == lost == 0`, with the loop still running |
| TcpClient.RunTCPClient | pkg/packets/tcp_client.go:66-141 | the loop over the four counter locals ends in the state `Run` gives; when still running it is balanced; the reporter delivers the cumulative counters unchanged, never reset, each balanced and below the final counters |
| UdpClient.ReportFn | pkg/packets/udp_client.go:72-75 | after a report, every baseline equals the current counter |
| UdpClient.FieldDelta | pkg/packets/udp_client.go:51-70 | an unchanged counter reports 0, and a counter that rose from a nonnegative baseline reports between 0 and its rise; `FirstRiseSuppressed` gives both branches |
| UdpClient.Delta | pkg/packets/udp_client.go:51-70 | an idle interval reports (0, 0, 0, 0); from nonnegative baselines at most the current counters, each field lies between 0 and its rise |
| UdpClient.DeltaReports | pkg/packets/udp_client.go:48-81 | reporting at n snapshots delivers n reports |
| UdpClient.DeltaReportsSnoc | pkg/packets/udp_client.go:48-81 | one more report delivers the change from the previous snapshot's baselines |
| UdpClient.DeltaReportsAt | pkg/packets/udp_client.go:51-75 | the k-th report is `Delta` of snapshot k against snapshot k-1, or against the starting baselines |
| UdpClient.IdleReportIsZero | pkg/packets/udp_client.go:72-75 | a report with no exchange since the previous one delivers (0, 0, 0, 0) |
| UdpClient.FirstRiseSuppressed | pkg/packets/udp_client.go:51-70 | per field: a zero baseline reports 0 whatever the counter did (a first rise from zero is never reported); a nonzero baseline reports current minus baseline |
| UdpClient.DeltaReportsNonNegative | pkg/packets/udp_client.go:51-75 | with counters that only increase, no report is negative |
| UdpClient.ReportAt | pkg/packets/udp_client.go:114 | a report from the ticker goroutine appends the next delta report and re-seeds the baselines |
| UdpClient.UdpTick | pkg/packets/udp_client.go:106-180 | one loop-head event is one application of the loop body, keeping the reports and baselines in step with the snapshots |
| UdpClient.ReportingLoop | pkg/packets/udp_client.go:83-180 | the initial report, then the loop with reports interleaved: the end state is the state `Run` gives, and the reports are the delta reports at zero and at each snapshot |
| UdpClient.RunUDPClient | pkg/packets/udp_client.go:48-180 | the end state is the state `Run` gives; the reports are the delta reports at the start, at each tick and (deferred) at the return; the first report is all zeros; none is negative; a still-running session is balanced |
| UdpClient.ReportsNonNegative | pkg/packets/udp_client.go:48-87 | for any reachable session, the first report is (0, 0, 0, 0) and no report is negative |
| UdpClient.ReportPointsChain | pkg/packets/udp_client.go:83-114 | the counters at the report points form a monotone chain starting at zero |
| ProbeMetrics.ReplaceAll | main.go:247 | length is kept; each occurrence of the pattern character is replaced and every other character is kept |
| ProbeMetrics.Sanitise | main.go:247-248 | length is kept; every `.` and `:` becomes `_`; every other character is kept; no `.` or `:` remains |
| ProbeMetrics.SanitiseIdempotent | main.go:289-290 | sanitising twice is sanitising once |
| ProbeMetrics.CounterName | main.go:250-253 | the name is the protocol prefix, then the sanitised address, then `_`, then the metric's own suffix (`sent`, `received`, `out_of_order` or `lost`) |
| ProbeMetrics.CounterNamesDistinct | main.go:250-253 | for one address, two of the eight counter names are equal exactly when protocol and metric are equal |
| ProbeMetrics.Total | main.go:255-259 | the sum of nonnegative reports is nonnegative; `AccumulateReports` shows it is what the four counters hold |
| ProbeMetrics.AddressCounters.Report | main.go:255-259 | one report call adds each delivered number onto its counter |
| ProbeMetrics.AccumulateReports | main.go:297-301 | feeding reports in order leaves the counters at their fieldwise sum |
| ProbeMetrics.DeltaTotalBounded | pkg/packets/udp_client.go:51-75 | along a monotone chain, the delta reports add up to at most the rise from the first baselines to the last snapshot, and never below zero |
| ProbeMetrics.UdpSessionTotals | main.go:297-301 | over a UDP session, the per-address counters end up nonnegative and never above the session's own counters |
| ProbeMetrics.TcpTotalsCoverLatest | main.go:255-259 | adding cumulative nonnegative reports leaves the counters at least at the latest report |
| ProbeMetrics.TcpSessionTotals | pkg/packets/tcp_client.go:66-75 | over a TCP session, the per-address counters hold at least the latest report |
| NetworkInterfaces.AllFieldsComplete | pkg/network_interfaces/network_interfaces.go:28-54 | the 27 integer fields are all listed |
| NetworkInterfaces.RecordFields | pkg/network_interfaces/network_interfaces.go:119-168 | each counter field of a built record is its statistics file's value, or 0 when absent; `Speed` is 0; name and MAC are as given |
| NetworkInterfaces.ReadItem | pkg/network_interfaces/network_interfaces.go:89-100 | an item read fails exactly when its file is missing (the loopback `speed` never is read); it then fails with that item's read error; otherwise it is the trimmed contents |
| NetworkInterfaces.ReadStat | pkg/network_interfaces/network_interfaces.go:132-140 | a statistics read succeeds exactly when the file exists and its trimmed contents parse, giving that value; a missing file is a read error and a bad number a parse error |
| NetworkInterfaces.GetNetworkInterfaces | pkg/network_interfaces/network_interfaces.go:65-174 | the nested loops compute exactly `Snapshot` |
| NetworkInterfaces.ReadEntry | pkg/network_interfaces/network_interfaces.go:74-170 | the outer loop's body for one entry computes exactly `Entry` |
| NetworkInterfaces.ReadItemFiles | pkg/network_interfaces/network_interfaces.go:86-101 | the item loop computes exactly `ReadItems` |
| NetworkInterfaces.ReadStatFiles | pkg/network_interfaces/network_interfaces.go:129-143 | the statistics loop computes exactly `ReadStats` |
| NetworkInterfaces.AssembleFailureSticks | pkg/network_interfaces/network_interfaces.go:97-139 | once an entry fails, later entries cannot change the outcome |
| NetworkInterfaces.ReadEachFailureSticks | pkg/network_interfaces/network_interfaces.go:97-139 | once a read fails, later reads cannot change the outcome |
| NetworkInterfaces.Snapshot | pkg/network_interfaces/network_interfaces.go:65-174 | a successful snapshot means /sys/class/net listed, with at most one record per entry; the Snapshot and Assemble lemmas below state the rest |
| NetworkInterfaces.Assemble | pkg/network_interfaces/network_interfaces.go:73-171 | a successful list has at most one record per entry, each named after an entry; `AssembleOrder` and `AssembleFailure` state order and failure |
| NetworkInterfaces.Entry | pkg/network_interfaces/network_interfaces.go:76-168 | an entry yields nothing exactly when its statistics directory does not list; a record carries the entry's name and `Speed` 0; `EntryFailure` and `EntryRecord` state the rest |
| NetworkInterfaces.MakeRecord | pkg/network_interfaces/network_interfaces.go:119-168 | the record carries the given name, MAC, `ifindex` and `mtu`, with `Speed` 0; `RecordFields` gives each counter field |
| NetworkInterfaces.SnapshotListFailed | pkg/network_interfaces/network_interfaces.go:66-69 | the list-failed error comes exactly from failing to list /sys/class/net |
| NetworkInterfaces.AssembleNeverListFails | pkg/network_interfaces/network_interfaces.go:73-171 | no entry ever produces the list-failed error |
| NetworkInterfaces.EntryNeverListFails | pkg/network_interfaces/network_interfaces.go:76-168 | one entry never produces the list-failed error |
| NetworkInterfaces.ReadEachAvoids | pkg/network_interfaces/network_interfaces.go:88-143 | a read loop fails only with an error some single read gives |
| NetworkInterfaces.SnapshotOfEmptyDirectory | pkg/network_interfaces/network_interfaces.go:71-173 | an empty /sys/class/net gives an empty list and no error |
| NetworkInterfaces.AssembleOrder | pkg/network_interfaces/network_interfaces.go:73-170 | a successful snapshot has one record per entry with statistics, in directory order; each is named after its entry and is what that entry yields |
| NetworkInterfaces.EntryNamesRecord | pkg/network_interfaces/network_interfaces.go:76-121 | an entry yields a record exactly when its statistics directory lists, and the record carries the entry's name |
| NetworkInterfaces.AssembleFailure | pkg/network_interfaces/network_interfaces.go:73-171 | the snapshot fails exactly when some entry fails; skipped entries never do |
| NetworkInterfaces.ReadRelevantItems | pkg/network_interfaces/network_interfaces.go:57-101 | `address`, `ifindex` and `mtu` are read in that order; the first missing one is the error; otherwise they are the three trimmed contents |
| NetworkInterfaces.ReadEachSucceeds | pkg/network_interfaces/network_interfaces.go:131-143 | a read loop succeeds exactly when every one of its reads does |
| NetworkInterfaces.ReadEachKeys | pkg/network_interfaces/network_interfaces.go:142 | a successful read loop's map holds exactly the names it read |
| NetworkInterfaces.ReadEachValues | pkg/network_interfaces/network_interfaces.go:142 | each value in a successful read loop's map is what its name reads as |
| NetworkInterfaces.ReadStatsSucceeds | pkg/network_interfaces/network_interfaces.go:131-140 | every listed statistics file is read and parsed, known or not; the stats map succeeds exactly when all of them are readable |
| NetworkInterfaces.ReadStatsContents | pkg/network_interfaces/network_interfaces.go:129-143 | a successful stats map holds exactly the listed files, each at its parsed trimmed contents |
| NetworkInterfaces.EntryFailure | pkg/network_interfaces/network_interfaces.go:95-140 | an entry with statistics fails exactly when an item file is missing, `ifindex` or `mtu` does not parse, or some statistics file is missing or does not parse |
| NetworkInterfaces.EntryRecord | pkg/network_interfaces/network_interfaces.go:100-168 | a record's name is its entry; MAC is the trimmed `address`; `ifindex` and `mtu` are the parsed trimmed files; `Speed` is 0; each counter is its statistics file's value, or 0 when that file is not listed |
| InterfaceMetrics.FieldNameRoundTrip | main.go:78-104 | each field's key suffix names that field back |
| InterfaceMetrics.FieldNameNoUnderscore | main.go:78-104 | no key suffix contains `_` |
| InterfaceMetrics.UnderscoreInside | main.go:78 | when two joined keys are equal and one suffix is shorter, the separator falls inside the longer suffix |
| InterfaceMetrics.SplitAtLastUnderscore | main.go:78 | a name and an underscore-free suffix joined by `_` split back uniquely |
| InterfaceMetrics.FieldName | main.go:78-104 | each key suffix is at least three characters and starts with a capital letter; `FieldNameRoundTrip` and `FieldNameNoUnderscore` state the rest |
| InterfaceMetrics.Key | main.go:78-104 | the key begins with the interface name followed by `_`; `KeyInjective` shows different counters get different keys |
| InterfaceMetrics.KeyInjective | main.go:78-104 | two (name, field) pairs share a `"<name>_<Field>"` key only when they are equal |
| InterfaceMetrics.KeyInKeysOf | main.go:78-104 | a counter belongs to one name's 27 keys exactly when it is for that name |
| InterfaceMetrics.KeyInKeysFor | main.go:72-107 | a counter belongs to the keys of a set of names exactly when its name is in the set |
| InterfaceMetrics.KeysForAdd | main.go:72-107 | adding a name adds exactly its 27 keys |
| InterfaceMetrics.KeysForRemove | main.go:143-206 | removing a name removes exactly its 27 keys |
| InterfaceMetrics.TableKeys | main.go:72-206 | a table over the counters of some names renders to exactly the string keys names × fields |
| InterfaceMetrics.Table | main.go:36 | the rendered `counters` map has one key per counter, in the program's spelling, and keeps each counter's value |
| InterfaceMetrics.ByName | main.go:65-69 | every name in the map is mapped to a record of the list that carries that name; `ByNameMeaning` shows it is the last such record |
| InterfaceMetrics.LastWith | main.go:67-69 | the position found holds a record of that name and no later record has the name |
| InterfaceMetrics.ByNameMeaning | main.go:65-69 | the name-to-record map holds exactly the names in the list, each mapped to its last record: a later duplicate wins |
| InterfaceMetrics.IndexByName | main.go:65-69 | the loop builds exactly `ByName` of the list |
| InterfaceMetrics.InterfaceCollector.AddInterface | main.go:77-105 | a new name gets its 27 counters at 0; nothing else changes |
| InterfaceMetrics.InterfaceCollector.AddValues | main.go:112-138 | each of one name's 27 counters grows by the record's raw field value; nothing else changes |
| InterfaceMetrics.InterfaceCollector.RemoveInterface | main.go:148-204 | exactly the 27 counters of the name are deleted |
| InterfaceMetrics.InterfaceCollector.AddNewInterfaces | main.go:72-107 | counters are created only for names absent from the previous poll; counters of names present before keep their values |
| InterfaceMetrics.InterfaceCollector.AddAllValues | main.go:110-140 | every present name's counters grow by its record's raw values; the counters of every other name keep their values |
| InterfaceMetrics.InterfaceCollector.RemoveVanished | main.go:143-206 | the names missing from the current poll lose all 27 counters; the table's keys become the current names × fields; surviving values are unchanged |
| InterfaceMetrics.InterfaceCollector.Poll | main.go:50-215 | a failed snapshot is fatal and changes nothing; otherwise the retained map is the current name-to-record map, the table's keys are the current names × fields, and each counter is its old value (or 0 for a new name) plus the raw field value |
| InterfaceMetrics.HistorySnoc | main.go:43-50 | one more successful poll appends its name-to-record map to the history |
| InterfaceMetrics.HistoryStops | main.go:212-214 | after a failed poll nothing more is polled |
| InterfaceMetrics.TrailingSumStep | main.go:72-206 | one more poll: a present name's counter grows from its old value, or from 0 when it was absent before (a reappearing name starts fresh); an absent name has no counter |
| InterfaceMetrics.SteadyInterfaceCounter | main.go:112-138 | an interface reported with the same record by each of the last k polls, and absent before, has each counter at k times the raw value: raw values are added, not differences |
| InterfaceMetrics.RunCollector | main.go:38-217 | the poller stops exactly when a poll fails; the table then holds exactly the keys of the last successful poll's names, each at its trailing sum |

## Left out

- Sockets, address resolution, dialing, deadlines, tickers and `time.Sleep` are replaced by the event sequence and its outcome values. Each client's `Close` on cancellation (pkg/packets/tcp_client.go:34-37 and pkg/packets/udp_client.go:89-92) is among them: it shows up only as a read or write outcome.
- Goroutines and mutexes are left out. The reporter is an event interleaved between loop passes, so it only ever sees the counters at a loop head. In the program, `sent++` is not under the mutex in either client (pkg/packets/tcp_client.go:99 and pkg/packets/udp_client.go:138), and each fate increment is a separate critical section. A reporter can therefore run between the two and see one sent exchange whose fate is not yet counted (`sent == received + outOfOrder + lost + 1`). The balance of every snapshot that `RunInvariant` and `RunTCPClient` state holds for the loop-head interleaving of the model, not for every interleaving of the program.
- The counters are unbounded integers. `int64` wrap-around after 2^63 exchanges, the `int` casts of `ifindex` and `mtu`, and the `float64` conversion in `Counter.Add` are not modelled.
- Exchange.Step: the UDP loop's one-second deadline and the TCP loop's 10 ms deadline are both just the deadline outcome, so the two loops share one body.
- GoText.TrimSpace trims only ASCII white space. Go also trims Unicode space characters, which a sysfs file does not contain.
- GoText.ParseInt does not distinguish Go's syntax error from its range error. The program never tells them apart.
- The `Timestamp` field of `NetworkInterface` (`time.Now`) is left out.
- The sysfs listing is taken as given in `os.ReadDir` order (sorted by name).
- JSON marshalling and the `/network-interfaces` body are not modelled (main.go:56-63, 220-228). Neither are the HTTP handlers and `ListenAndServe` (main.go:318-319).
- Prometheus registration and `Unregister` are not modelled; counters are map entries. The duplicate-name panic of `promauto` is therefore not modelled either. This includes two addresses that sanitise alike, such as `1.2` and `1:2`.
- ProbeMetrics.CounterName does not state that different addresses give different names, because they need not.
- main.go:255-259 adds each TCP report onto its counter with `Counter.Add`, but the TCP reporter hands over cumulative counts. The published TCP counters therefore hold the sum of all cumulative reports so far, far more than the exchanges made. The model follows the code. It proves only that they hold at least the latest report (`TcpTotalsCoverLatest`, `TcpSessionTotals`).
- The retry supervisor loops around the clients (main.go:262-268, 304-310) are left out, and so are the log lines.
- The TCP and UDP servers, `common.go` and the two test files are not part of this model. The tests are not a usable oracle: packets_test.go calls `RunTCPClient` with two arguments instead of three.
- The UDP client dials `host:6943`, while the TCP client dials the raw address. Both are dial details and are left out.
- The interface poller adds each poll's raw field values onto the counters rather than the change since the previous poll (main.go:112-138). The model follows the code (`SteadyInterfaceCounter`). A failed snapshot ends the process through `log.Fatal`, so the `continue` after it is unreachable (main.go:212-214). The model stops there (`Poll`, `RunCollector`).
