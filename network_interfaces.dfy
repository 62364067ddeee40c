/**
 * `GetNetworkInterfaces`: one snapshot of the host's network interfaces
 * read from the sysfs tree under /sys/class/net. The file system is
 * abstracted as a map from directory paths to their listings and a map
 * from file paths to their contents; a path that is absent from the map
 * is one that `os.ReadDir` or `os.ReadFile` fails on.
 */
module NetworkInterfaces {
  import opened Wrappers
  import opened GoText

  /** The `NetworkInterface` record (its timestamp is left out). */
  datatype NetworkInterface = NetworkInterface(
    name: string, mac: string, ifIndex: int, mtu: int, speed: int,
    collisions: int, multicast: int,
    rxBytes: int, rxCompressed: int, rxCrcErrors: int, rxDropped: int, rxErrors: int,
    rxFifoErrors: int, rxFrameErrors: int, rxLengthErrors: int, rxMissedErrors: int,
    rxNohandler: int, rxOverErrors: int, rxPackets: int,
    txAbortedErrors: int, txBytes: int, txCarrierErrors: int, txCompressed: int, txDropped: int,
    txErrors: int, txFifoErrors: int, txHeartbeatErrors: int, txPackets: int, txWindowErrors: int)

  /** The 27 integer fields of a record. */
  datatype Field =
    | IFIndex | MTU | Speed | Collisions | Multicast
    | RxBytes | RxCompressed | RxCrcErrors | RxDropped | RxErrors | RxFifoErrors | RxFrameErrors
    | RxLengthErrors | RxMissedErrors | RxNohandler | RxOverErrors | RxPackets
    | TxAbortedErrors | TxBytes | TxCarrierErrors | TxCompressed | TxDropped | TxErrors
    | TxFifoErrors | TxHeartbeatErrors | TxPackets | TxWindowErrors

  const AllFields: seq<Field> := [
    IFIndex, MTU, Speed, Collisions, Multicast,
    RxBytes, RxCompressed, RxCrcErrors, RxDropped, RxErrors, RxFifoErrors, RxFrameErrors,
    RxLengthErrors, RxMissedErrors, RxNohandler, RxOverErrors, RxPackets,
    TxAbortedErrors, TxBytes, TxCarrierErrors, TxCompressed, TxDropped, TxErrors,
    TxFifoErrors, TxHeartbeatErrors, TxPackets, TxWindowErrors]

  lemma AllFieldsComplete(f: Field)
    ensures f in AllFields
  {
  }

  function FieldValue(ni: NetworkInterface, f: Field): int {
    match f
    case IFIndex => ni.ifIndex
    case MTU => ni.mtu
    case Speed => ni.speed
    case Collisions => ni.collisions
    case Multicast => ni.multicast
    case RxBytes => ni.rxBytes
    case RxCompressed => ni.rxCompressed
    case RxCrcErrors => ni.rxCrcErrors
    case RxDropped => ni.rxDropped
    case RxErrors => ni.rxErrors
    case RxFifoErrors => ni.rxFifoErrors
    case RxFrameErrors => ni.rxFrameErrors
    case RxLengthErrors => ni.rxLengthErrors
    case RxMissedErrors => ni.rxMissedErrors
    case RxNohandler => ni.rxNohandler
    case RxOverErrors => ni.rxOverErrors
    case RxPackets => ni.rxPackets
    case TxAbortedErrors => ni.txAbortedErrors
    case TxBytes => ni.txBytes
    case TxCarrierErrors => ni.txCarrierErrors
    case TxCompressed => ni.txCompressed
    case TxDropped => ni.txDropped
    case TxErrors => ni.txErrors
    case TxFifoErrors => ni.txFifoErrors
    case TxHeartbeatErrors => ni.txHeartbeatErrors
    case TxPackets => ni.txPackets
    case TxWindowErrors => ni.txWindowErrors
  }

  /** The file under `statistics/` that a counter field is read from. */
  function StatFile(f: Field): Option<string> {
    match f
    case IFIndex => None
    case MTU => None
    case Speed => None
    case Collisions => Some("collisions")
    case Multicast => Some("multicast")
    case RxBytes => Some("rx_bytes")
    case RxCompressed => Some("rx_compressed")
    case RxCrcErrors => Some("rx_crc_errors")
    case RxDropped => Some("rx_dropped")
    case RxErrors => Some("rx_errors")
    case RxFifoErrors => Some("rx_fifo_errors")
    case RxFrameErrors => Some("rx_frame_errors")
    case RxLengthErrors => Some("rx_length_errors")
    case RxMissedErrors => Some("rx_missed_errors")
    case RxNohandler => Some("rx_nohandler")
    case RxOverErrors => Some("rx_over_errors")
    case RxPackets => Some("rx_packets")
    case TxAbortedErrors => Some("tx_aborted_errors")
    case TxBytes => Some("tx_bytes")
    case TxCarrierErrors => Some("tx_carrier_errors")
    case TxCompressed => Some("tx_compressed")
    case TxDropped => Some("tx_dropped")
    case TxErrors => Some("tx_errors")
    case TxFifoErrors => Some("tx_fifo_errors")
    case TxHeartbeatErrors => Some("tx_heartbeat_errors")
    case TxPackets => Some("tx_packets")
    case TxWindowErrors => Some("tx_window_errors")
  }

  /** A Go map lookup: the zero value when the key is absent. */
  function Stat(stats: map<string, int>, file: string): int {
    if file in stats then stats[file] else 0
  }

  function Item(items: map<string, string>, item: string): string {
    if item in items then items[item] else ""
  }

  /** The record built from the parsed items and statistics; `Speed` is never set. */
  function MakeRecord(name: string, mac: string, ifIndex: int, mtu: int, stats: map<string, int>): (r: NetworkInterface)
    ensures r.name == name && r.mac == mac && r.ifIndex == ifIndex && r.mtu == mtu && r.speed == 0
  {
    NetworkInterface(
      name, mac, ifIndex, mtu, 0,
      Stat(stats, "collisions"), Stat(stats, "multicast"),
      Stat(stats, "rx_bytes"), Stat(stats, "rx_compressed"), Stat(stats, "rx_crc_errors"),
      Stat(stats, "rx_dropped"), Stat(stats, "rx_errors"), Stat(stats, "rx_fifo_errors"),
      Stat(stats, "rx_frame_errors"), Stat(stats, "rx_length_errors"), Stat(stats, "rx_missed_errors"),
      Stat(stats, "rx_nohandler"), Stat(stats, "rx_over_errors"), Stat(stats, "rx_packets"),
      Stat(stats, "tx_aborted_errors"), Stat(stats, "tx_bytes"), Stat(stats, "tx_carrier_errors"),
      Stat(stats, "tx_compressed"), Stat(stats, "tx_dropped"), Stat(stats, "tx_errors"),
      Stat(stats, "tx_fifo_errors"), Stat(stats, "tx_heartbeat_errors"), Stat(stats, "tx_packets"),
      Stat(stats, "tx_window_errors"))
  }

  /**
   * Each counter field of a record is the value parsed from its own
   * statistics file, or 0 when that file was not listed; `Speed` is 0.
   */
  lemma RecordFields(name: string, mac: string, ifIndex: int, mtu: int, stats: map<string, int>)
    ensures var ni := MakeRecord(name, mac, ifIndex, mtu, stats);
            && ni.name == name && ni.mac == mac
            && forall f :: FieldValue(ni, f) == match StatFile(f)
                                                case Some(file) => Stat(stats, file)
                                                case None => if f == IFIndex then ifIndex else if f == MTU then mtu else 0
  {
  }

  // ---------------------------------------------------------------------
  // The abstract file system
  // ---------------------------------------------------------------------

  /** A path as its components, so that `filepath.Join` is concatenation. */
  type Path = seq<string>

  datatype FileSystem = FileSystem(dirs: map<Path, seq<string>>, files: map<Path, string>)

  /** `/sys/class/net` */
  const SysClassNet: Path := ["sys", "class", "net"]

  /** The entry names of a directory, in the order `os.ReadDir` returns them. */
  function ReadDir(fs: FileSystem, p: Path): Option<seq<string>> {
    if p in fs.dirs then Some(fs.dirs[p]) else None
  }

  function ReadFile(fs: FileSystem, p: Path): Option<string> {
    if p in fs.files then Some(fs.files[p]) else None
  }

  function StatsDir(name: string): Path {
    SysClassNet + [name, "statistics"]
  }

  function ItemPath(name: string, item: string): Path {
    SysClassNet + [name, item]
  }

  function StatPath(name: string, file: string): Path {
    StatsDir(name) + [file]
  }

  /** The per-interface files read besides the statistics (speed is commented out in the source). */
  const RelevantItems: seq<string> := ["address", "ifindex", "mtu"]

  /** Which step of the snapshot failed; the call returns no list in every case. */
  datatype FetchError =
    | ListFailed
    | ItemReadFailed(iface: string, item: string)
    | ItemParseFailed(iface: string, item: string)
    | StatReadFailed(iface: string, file: string)
    | StatParseFailed(iface: string, file: string)

  // ---------------------------------------------------------------------
  // The snapshot, as left folds over the listings
  // ---------------------------------------------------------------------

  /**
   * The map built by reading each key in turn with `read`; the first key
   * whose read fails decides the error, and a key read twice keeps its
   * later value.
   */
  function ReadEach<K, V, E>(read: K -> Result<V, E>, keys: seq<K>): Result<map<K, V>, E> {
    if |keys| == 0 then Success(map[])
    else
      match ReadEach(read, keys[..|keys| - 1])
      case Failure(e) => Failure(e)
      case Success(m) =>
        var key := keys[|keys| - 1];
        match read(key)
        case Failure(e) => Failure(e)
        case Success(v) => Success(m[key := v])
  }

  /** One item file read and trimmed; the loopback `speed` is "0" without a read. */
  function ReadItem(fs: FileSystem, name: string, item: string): (r: Result<string, FetchError>)
    ensures r.Failure? <==> !(item == "speed" && name == "lo") && ItemPath(name, item) !in fs.files
    ensures r.Failure? ==> r.error == ItemReadFailed(name, item)
    ensures r.Success? && !(item == "speed" && name == "lo") ==> r.value == TrimSpace(fs.files[ItemPath(name, item)])
  {
    if item == "speed" && name == "lo" then Success("0")
    else
      match ReadFile(fs, ItemPath(name, item))
      case None => Failure(ItemReadFailed(name, item))
      case Some(raw) => Success(TrimSpace(raw))
  }

  function ItemReader(fs: FileSystem, name: string): string -> Result<string, FetchError> {
    item => ReadItem(fs, name, item)
  }

  /** The `items` map after reading the given item files in turn. */
  function ReadItems(fs: FileSystem, name: string, items: seq<string>): Result<map<string, string>, FetchError> {
    ReadEach(ItemReader(fs, name), items)
  }

  /** One statistics file read and its trimmed contents parsed. */
  function ReadStat(fs: FileSystem, name: string, file: string): (r: Result<int, FetchError>)
    ensures r.Success? <==> StatReadable(fs, name, file)
    ensures r.Success? ==> r.value == StatValue(fs, name, file)
    ensures r.Failure? ==> r.error == if StatPath(name, file) in fs.files then StatParseFailed(name, file) else StatReadFailed(name, file)
  {
    match ReadFile(fs, StatPath(name, file))
    case None => Failure(StatReadFailed(name, file))
    case Some(raw) =>
      match ParseInt(TrimSpace(raw))
      case None => Failure(StatParseFailed(name, file))
      case Some(v) => Success(v)
  }

  function StatReader(fs: FileSystem, name: string): string -> Result<int, FetchError> {
    file => ReadStat(fs, name, file)
  }

  /** The `stats` map after reading and parsing the given statistics files in turn. */
  function ReadStats(fs: FileSystem, name: string, files: seq<string>): Result<map<string, int>, FetchError> {
    ReadEach(StatReader(fs, name), files)
  }

  /** What one directory entry contributes: a failure, nothing (no statistics), or a record. */
  function Entry(fs: FileSystem, name: string): (r: Result<Option<NetworkInterface>, FetchError>)
    ensures r == Success(None) <==> StatsDir(name) !in fs.dirs
    ensures r.Success? && r.value.Some? ==> r.value.value.name == name && r.value.value.speed == 0
  {
    match ReadDir(fs, StatsDir(name))
    case None => Success(None)
    case Some(statFiles) =>
      match ReadItems(fs, name, RelevantItems)
      case Failure(e) => Failure(e)
      case Success(items) =>
        match ParseInt(Item(items, "ifindex"))
        case None => Failure(ItemParseFailed(name, "ifindex"))
        case Some(ifIndex) =>
          match ParseInt(Item(items, "mtu"))
          case None => Failure(ItemParseFailed(name, "mtu"))
          case Some(mtu) =>
            match ReadStats(fs, name, statFiles)
            case Failure(e) => Failure(e)
            case Success(stats) => Success(Some(MakeRecord(name, Item(items, "address"), ifIndex, mtu, stats)))
  }

  /** The list built from the given entries in turn; the first failing entry decides the error. */
  function Assemble(fs: FileSystem, entries: seq<string>): (r: Result<seq<NetworkInterface>, FetchError>)
    ensures r.Success? ==> |r.value| <= |entries| && forall i :: 0 <= i < |r.value| ==> r.value[i].name in entries
  {
    if |entries| == 0 then Success([])
    else
      match Assemble(fs, entries[..|entries| - 1])
      case Failure(e) => Failure(e)
      case Success(list) =>
        match Entry(fs, entries[|entries| - 1])
        case Failure(e) => Failure(e)
        case Success(None) => Success(list)
        case Success(Some(ni)) => Success(list + [ni])
  }

  function Snapshot(fs: FileSystem): (r: Result<seq<NetworkInterface>, FetchError>)
    ensures r.Success? ==> SysClassNet in fs.dirs && |r.value| <= |fs.dirs[SysClassNet]|
  {
    match ReadDir(fs, SysClassNet)
    case None => Failure(ListFailed)
    case Some(entries) => Assemble(fs, entries)
  }

  // ---------------------------------------------------------------------
  // The imperative builder
  // ---------------------------------------------------------------------

  method GetNetworkInterfaces(fs: FileSystem) returns (r: Result<seq<NetworkInterface>, FetchError>)
    ensures r == Snapshot(fs)
  {
    var listing := ReadDir(fs, SysClassNet);
    if listing.None? {
      return Failure(ListFailed);
    }
    var entries := listing.value;
    var networkInterfaces: seq<NetworkInterface> := [];
    var i := 0;
    while i < |entries|
      invariant 0 <= i <= |entries|
      invariant Assemble(fs, entries[..i]) == Success(networkInterfaces)
    {
      var name := entries[i];
      assert entries[..i + 1][..i] == entries[..i];
      var entry := ReadEntry(fs, name);
      match entry {
        case Failure(e) =>
          AssembleFailureSticks(fs, entries, i + 1);
          return Failure(e);
        case Success(None) =>
        case Success(Some(ni)) =>
          networkInterfaces := networkInterfaces + [ni];
      }
      i := i + 1;
    }
    assert entries[..i] == entries;
    r := Success(networkInterfaces);
  }

  /** The body of the outer loop for one directory entry. */
  method ReadEntry(fs: FileSystem, name: string) returns (r: Result<Option<NetworkInterface>, FetchError>)
    ensures r == Entry(fs, name)
  {
    var statsListing := ReadDir(fs, StatsDir(name));
    if statsListing.None? {
      return Success(None);  // not every entry has statistics: skipped silently
    }
    var statFiles := statsListing.value;

    var readItems := ReadItemFiles(fs, name, RelevantItems);
    if readItems.Failure? {
      return Failure(readItems.error);
    }
    var items := readItems.value;

    var ifIndex := ParseInt(Item(items, "ifindex"));
    if ifIndex.None? {
      return Failure(ItemParseFailed(name, "ifindex"));
    }
    var mtu := ParseInt(Item(items, "mtu"));
    if mtu.None? {
      return Failure(ItemParseFailed(name, "mtu"));
    }

    var readStats := ReadStatFiles(fs, name, statFiles);
    if readStats.Failure? {
      return Failure(readStats.error);
    }
    r := Success(Some(MakeRecord(name, Item(items, "address"), ifIndex.value, mtu.value, readStats.value)));
  }

  /** The loop over the item files of one entry. */
  method ReadItemFiles(fs: FileSystem, name: string, relevant: seq<string>) returns (r: Result<map<string, string>, FetchError>)
    ensures r == ReadItems(fs, name, relevant)
  {
    var items: map<string, string> := map[];
    var j := 0;
    while j < |relevant|
      invariant 0 <= j <= |relevant|
      invariant ReadItems(fs, name, relevant[..j]) == Success(items)
    {
      var item := relevant[j];
      assert relevant[..j + 1][..j] == relevant[..j];
      assert ItemReader(fs, name)(item) == ReadItem(fs, name, item);
      if item == "speed" && name == "lo" {
        items := items[item := "0"];
      } else {
        var raw := ReadFile(fs, ItemPath(name, item));
        if raw.None? {
          ReadEachFailureSticks(ItemReader(fs, name), relevant, j + 1);
          return Failure(ItemReadFailed(name, item));
        }
        items := items[item := TrimSpace(raw.value)];
      }
      j := j + 1;
    }
    assert relevant[..j] == relevant;
    r := Success(items);
  }

  /** The loop over the statistics files of one entry. */
  method ReadStatFiles(fs: FileSystem, name: string, statFiles: seq<string>) returns (r: Result<map<string, int>, FetchError>)
    ensures r == ReadStats(fs, name, statFiles)
  {
    var stats: map<string, int> := map[];
    var k := 0;
    while k < |statFiles|
      invariant 0 <= k <= |statFiles|
      invariant ReadStats(fs, name, statFiles[..k]) == Success(stats)
    {
      var file := statFiles[k];
      assert statFiles[..k + 1][..k] == statFiles[..k];
      assert StatReader(fs, name)(file) == ReadStat(fs, name, file);
      var raw := ReadFile(fs, StatPath(name, file));
      if raw.None? {
        ReadEachFailureSticks(StatReader(fs, name), statFiles, k + 1);
        return Failure(StatReadFailed(name, file));
      }
      var stat := ParseInt(TrimSpace(raw.value));
      if stat.None? {
        ReadEachFailureSticks(StatReader(fs, name), statFiles, k + 1);
        return Failure(StatParseFailed(name, file));
      }
      stats := stats[file := stat.value];
      k := k + 1;
    }
    assert statFiles[..k] == statFiles;
    r := Success(stats);
  }

  lemma {:induction false} AssembleFailureSticks(fs: FileSystem, entries: seq<string>, i: nat)
    requires i <= |entries| && Assemble(fs, entries[..i]).Failure?
    ensures Assemble(fs, entries) == Assemble(fs, entries[..i])
    decreases |entries| - i
  {
    if i < |entries| {
      var front := entries[..|entries| - 1];
      assert front[..i] == entries[..i];
      AssembleFailureSticks(fs, front, i);
    } else {
      assert entries[..i] == entries;
    }
  }


  lemma {:induction false} ReadEachFailureSticks<K, V, E>(read: K -> Result<V, E>, keys: seq<K>, i: nat)
    requires i <= |keys| && ReadEach(read, keys[..i]).Failure?
    ensures ReadEach(read, keys) == ReadEach(read, keys[..i])
    decreases |keys| - i
  {
    if i < |keys| {
      var front := keys[..|keys| - 1];
      assert front[..i] == keys[..i];
      ReadEachFailureSticks(read, front, i);
    } else {
      assert keys[..i] == keys;
    }
  }

  // ---------------------------------------------------------------------
  // Properties of the snapshot
  // ---------------------------------------------------------------------

  /** Only a failure to list /sys/class/net itself gives `ListFailed`. */
  lemma SnapshotListFailed(fs: FileSystem)
    ensures Snapshot(fs) == Failure(ListFailed) <==> ReadDir(fs, SysClassNet).None?
  {
    if ReadDir(fs, SysClassNet).Some? {
      AssembleNeverListFails(fs, ReadDir(fs, SysClassNet).value);
    }
  }

  lemma {:induction false} AssembleNeverListFails(fs: FileSystem, entries: seq<string>)
    ensures Assemble(fs, entries) != Failure(ListFailed)
  {
    if |entries| > 0 {
      AssembleNeverListFails(fs, entries[..|entries| - 1]);
      EntryNeverListFails(fs, entries[|entries| - 1]);
    }
  }

  lemma EntryNeverListFails(fs: FileSystem, name: string)
    ensures Entry(fs, name) != Failure(ListFailed)
  {
    if ReadDir(fs, StatsDir(name)).Some? {
      ReadEachAvoids(ItemReader(fs, name), RelevantItems, ListFailed);
      ReadEachAvoids(StatReader(fs, name), ReadDir(fs, StatsDir(name)).value, ListFailed);
    }
  }

  /** A fold fails only with an error one of its reads gives. */
  lemma {:induction false} ReadEachAvoids<K, V, E>(read: K -> Result<V, E>, keys: seq<K>, e: E)
    requires forall key :: read(key) != Failure(e)
    ensures ReadEach(read, keys) != Failure(e)
  {
    if |keys| > 0 {
      ReadEachAvoids(read, keys[..|keys| - 1], e);
    }
  }

  /** An empty /sys/class/net gives an empty list (a list, not an error). */
  lemma SnapshotOfEmptyDirectory(fs: FileSystem)
    requires ReadDir(fs, SysClassNet) == Some([])
    ensures Snapshot(fs) == Success([])
  {
  }

  /** Whether an entry has a statistics directory that can be listed. */
  predicate HasStats(fs: FileSystem, name: string) {
    ReadDir(fs, StatsDir(name)).Some?
  }

  /** The entries, in listing order, that have a statistics directory. */
  function Listed(fs: FileSystem, entries: seq<string>): seq<string> {
    if |entries| == 0 then []
    else Listed(fs, entries[..|entries| - 1])
         + (if HasStats(fs, entries[|entries| - 1]) then [entries[|entries| - 1]] else [])
  }

  /**
   * A successful snapshot holds one record per entry with a statistics
   * directory, in directory order, each named after its entry and being
   * exactly what that entry yields; entries without statistics are skipped.
   */
  lemma {:induction false} AssembleOrder(fs: FileSystem, entries: seq<string>)
    requires Assemble(fs, entries).Success?
    ensures var list, names := Assemble(fs, entries).value, Listed(fs, entries);
            && |list| == |names|
            && forall k :: 0 <= k < |list| ==> list[k].name == names[k] && Entry(fs, names[k]) == Success(Some(list[k]))
  {
    if |entries| > 0 {
      var front := entries[..|entries| - 1];
      var name := entries[|entries| - 1];
      AssembleOrder(fs, front);
      if HasStats(fs, name) {
        EntryNamesRecord(fs, name);
      }
    }
  }

  lemma EntryNamesRecord(fs: FileSystem, name: string)
    ensures Entry(fs, name).Success? && Entry(fs, name).value.Some? ==> Entry(fs, name).value.value.name == name
    ensures Entry(fs, name).Success? ==> (Entry(fs, name).value.Some? <==> HasStats(fs, name))
  {
  }

  /** The snapshot fails exactly when some entry fails (skipped entries never do). */
  lemma {:induction false} AssembleFailure(fs: FileSystem, entries: seq<string>)
    ensures Assemble(fs, entries).Failure? <==> exists k :: 0 <= k < |entries| && Entry(fs, entries[k]).Failure?
  {
    if |entries| > 0 {
      var front := entries[..|entries| - 1];
      AssembleFailure(fs, front);
      assert forall k :: 0 <= k < |front| ==> front[k] == entries[k];
      if Entry(fs, entries[|entries| - 1]).Failure? {
        assert Entry(fs, entries[|entries| - 1]).Failure?;
      }
    }
  }

  /** The three item files read in order; the first one missing is the error. */
  lemma ReadRelevantItems(fs: FileSystem, name: string)
    ensures ReadItems(fs, name, RelevantItems) ==
      if ReadFile(fs, ItemPath(name, "address")).None? then Failure(ItemReadFailed(name, "address"))
      else if ReadFile(fs, ItemPath(name, "ifindex")).None? then Failure(ItemReadFailed(name, "ifindex"))
      else if ReadFile(fs, ItemPath(name, "mtu")).None? then Failure(ItemReadFailed(name, "mtu"))
      else Success(map["address" := TrimSpace(fs.files[ItemPath(name, "address")]),
                       "ifindex" := TrimSpace(fs.files[ItemPath(name, "ifindex")]),
                       "mtu" := TrimSpace(fs.files[ItemPath(name, "mtu")])])
  {
    var p := RelevantItems;
    assert p[..1][..0] == [] && p[..1][0] == "address";
    assert p[..2][..1] == p[..1] && p[..2][1] == "ifindex";
    assert p[..3][..2] == p[..2] && p[..3][2] == "mtu" && p[..3] == p;
    var a := ReadFile(fs, ItemPath(name, "address"));
    var i := ReadFile(fs, ItemPath(name, "ifindex"));
    var m := ReadFile(fs, ItemPath(name, "mtu"));
    var read := ItemReader(fs, name);
    assert read("address") == ReadItem(fs, name, "address");
    assert read("ifindex") == ReadItem(fs, name, "ifindex");
    assert read("mtu") == ReadItem(fs, name, "mtu");
    assert ReadEach(read, p[..0]) == Success(map[]);
    assert ReadItems(fs, name, p[..1]) ==
      if a.None? then Failure(ItemReadFailed(name, "address")) else Success(map["address" := TrimSpace(a.value)]);
    assert ReadItems(fs, name, p[..2]) ==
      if a.None? then Failure(ItemReadFailed(name, "address"))
      else if i.None? then Failure(ItemReadFailed(name, "ifindex"))
      else Success(map["address" := TrimSpace(a.value), "ifindex" := TrimSpace(i.value)]);
  }

  /** Whether one statistics file can be read and its trimmed contents parsed. */
  predicate StatReadable(fs: FileSystem, name: string, file: string) {
    StatPath(name, file) in fs.files && ParseInt(TrimSpace(fs.files[StatPath(name, file)])).Some?
  }

  function StatValue(fs: FileSystem, name: string, file: string): int
    requires StatReadable(fs, name, file)
  {
    ParseInt(TrimSpace(fs.files[StatPath(name, file)])).value
  }

  /** A fold succeeds exactly when every one of its reads does. */
  lemma {:induction false} ReadEachSucceeds<K, V, E>(read: K -> Result<V, E>, keys: seq<K>)
    ensures ReadEach(read, keys).Success? <==> forall i :: 0 <= i < |keys| ==> read(keys[i]).Success?
  {
    if |keys| > 0 {
      var front := keys[..|keys| - 1];
      ReadEachSucceeds(read, front);
      assert forall i :: 0 <= i < |front| ==> front[i] == keys[i];
    }
  }

  /** A successful fold holds exactly the keys it read. */
  lemma {:induction false} ReadEachKeys<K, V, E>(read: K -> Result<V, E>, keys: seq<K>)
    requires ReadEach(read, keys).Success?
    ensures forall key :: key in ReadEach(read, keys).value <==> key in keys
  {
    if |keys| > 0 {
      var front := keys[..|keys| - 1];
      ReadEachKeys(read, front);
      assert keys == front + [keys[|keys| - 1]];
    }
  }

  /** Each value in a successful fold is what its key reads as. */
  lemma {:induction false} ReadEachValues<K, V, E>(read: K -> Result<V, E>, keys: seq<K>)
    requires ReadEach(read, keys).Success?
    ensures var m := ReadEach(read, keys).value;
            forall key :: key in m ==> read(key).Success? && m[key] == read(key).value
  {
    if |keys| > 0 {
      ReadEachValues(read, keys[..|keys| - 1]);
    }
  }

  /**
   * Every listed statistics file is read and parsed, known or not: the
   * stats map succeeds exactly when all of them are readable.
   */
  lemma ReadStatsSucceeds(fs: FileSystem, name: string, files: seq<string>)
    ensures ReadStats(fs, name, files).Success? <==> forall k :: 0 <= k < |files| ==> StatReadable(fs, name, files[k])
  {
    ReadEachSucceeds(StatReader(fs, name), files);
    assert forall k :: 0 <= k < |files| ==> StatReader(fs, name)(files[k]) == ReadStat(fs, name, files[k]);
  }

  /** A successful stats map holds exactly the listed files, each with its parsed value. */
  lemma ReadStatsContents(fs: FileSystem, name: string, files: seq<string>)
    requires ReadStats(fs, name, files).Success?
    ensures var m := ReadStats(fs, name, files).value;
            && (forall file :: file in m <==> file in files)
            && (forall file :: file in m ==> StatReadable(fs, name, file) && m[file] == StatValue(fs, name, file))
  {
    ReadEachKeys(StatReader(fs, name), files);
    ReadEachValues(StatReader(fs, name), files);
    assert forall file :: StatReader(fs, name)(file) == ReadStat(fs, name, file);
  }

  /**
   * An entry with statistics fails exactly when an item file is missing,
   * `ifindex` or `mtu` does not parse, or some statistics file is missing
   * or does not parse.
   */
  lemma EntryFailure(fs: FileSystem, name: string)
    requires HasStats(fs, name)
    ensures var files := ReadDir(fs, StatsDir(name)).value;
            Entry(fs, name).Failure? <==>
              || (exists item :: item in RelevantItems && ItemPath(name, item) !in fs.files)
              || ParseInt(TrimSpace(fs.files[ItemPath(name, "ifindex")])).None?
              || ParseInt(TrimSpace(fs.files[ItemPath(name, "mtu")])).None?
              || (exists k :: 0 <= k < |files| && !StatReadable(fs, name, files[k]))
  {
    if exists item :: item in RelevantItems && ItemPath(name, item) !in fs.files {
      EntryItemMissing(fs, name);
    } else {
      EntryItemsPresent(fs, name);
    }
  }

  /** `EntryFailure` when an item file is missing: the entry fails. */
  lemma EntryItemMissing(fs: FileSystem, name: string)
    requires HasStats(fs, name)
    requires exists item :: item in RelevantItems && ItemPath(name, item) !in fs.files
    ensures Entry(fs, name).Failure?
  {
    ReadRelevantItems(fs, name);
    var item :| item in RelevantItems && ItemPath(name, item) !in fs.files;
    assert item == "address" || item == "ifindex" || item == "mtu";
  }

  /** `EntryFailure` when every item file is present. */
  lemma EntryItemsPresent(fs: FileSystem, name: string)
    requires HasStats(fs, name)
    requires forall item :: item in RelevantItems ==> ItemPath(name, item) in fs.files
    ensures var files := ReadDir(fs, StatsDir(name)).value;
            Entry(fs, name).Failure? <==>
              || ParseInt(TrimSpace(fs.files[ItemPath(name, "ifindex")])).None?
              || ParseInt(TrimSpace(fs.files[ItemPath(name, "mtu")])).None?
              || (exists k :: 0 <= k < |files| && !StatReadable(fs, name, files[k]))
  {
    var files := ReadDir(fs, StatsDir(name)).value;
    ReadRelevantItems(fs, name);
    assert "address" in RelevantItems && "ifindex" in RelevantItems && "mtu" in RelevantItems;
    var items := ReadItems(fs, name, RelevantItems).value;
    assert Item(items, "ifindex") == TrimSpace(fs.files[ItemPath(name, "ifindex")]);
    assert Item(items, "mtu") == TrimSpace(fs.files[ItemPath(name, "mtu")]);
    ReadStatsSucceeds(fs, name, files);
  }

  /**
   * A record read from an entry: its name is the entry name, its MAC the
   * trimmed `address` file, `ifindex` and `mtu` the parsed trimmed files,
   * `Speed` 0, and each counter the parsed value of its statistics file, or
   * 0 when that file is not listed.
   */
  lemma EntryRecord(fs: FileSystem, name: string, ni: NetworkInterface)
    requires Entry(fs, name) == Success(Some(ni))
    ensures HasStats(fs, name)
    ensures ni.name == name && ni.speed == 0
    ensures ItemPath(name, "address") in fs.files && ni.mac == TrimSpace(fs.files[ItemPath(name, "address")])
    ensures ItemPath(name, "ifindex") in fs.files && ParseInt(TrimSpace(fs.files[ItemPath(name, "ifindex")])) == Some(ni.ifIndex)
    ensures ItemPath(name, "mtu") in fs.files && ParseInt(TrimSpace(fs.files[ItemPath(name, "mtu")])) == Some(ni.mtu)
    ensures forall file :: file in ReadDir(fs, StatsDir(name)).value ==> StatReadable(fs, name, file)
    ensures forall f, file :: StatFile(f) == Some(file) ==>
              FieldValue(ni, f) == if file in ReadDir(fs, StatsDir(name)).value then StatValue(fs, name, file) else 0
  {
    ReadRelevantItems(fs, name);
    var files := ReadDir(fs, StatsDir(name)).value;
    var items := ReadItems(fs, name, RelevantItems).value;
    assert Item(items, "address") == TrimSpace(fs.files[ItemPath(name, "address")]);
    assert Item(items, "ifindex") == TrimSpace(fs.files[ItemPath(name, "ifindex")]);
    assert Item(items, "mtu") == TrimSpace(fs.files[ItemPath(name, "mtu")]);
    var stats := ReadStats(fs, name, files).value;
    assert ni == MakeRecord(name, Item(items, "address"), ni.ifIndex, ni.mtu, stats);
    ReadStatsContents(fs, name, files);
    RecordFields(name, Item(items, "address"), ni.ifIndex, ni.mtu, stats);
    forall f, file | StatFile(f) == Some(file)
      ensures FieldValue(ni, f) == if file in files then StatValue(fs, name, file) else 0
    {
      assert FieldValue(ni, f) == Stat(stats, file);
    }
  }
}
