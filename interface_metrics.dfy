/**
 * The interface poller of main.go: each poll turns the snapshot list into a
 * name-to-record map, creates 27 counters for every interface name that is
 * new since the previous poll, adds each record's raw field values to its
 * counters, deletes the counters of every name that vanished, and keeps the
 * new map for the next poll. The program's `counters` map, which holds the
 * registered Prometheus counters under `"<name>_<Field>"` keys, is
 * modelled as a table of counter values.
 */
module InterfaceMetrics {
  import opened Wrappers
  import opened NetworkInterfaces

  /** The key suffix main.go uses for each field. */
  function FieldName(f: Field): (s: string)
    ensures |s| >= 3 && 'A' <= s[0] <= 'Z'
  {
    match f
    case IFIndex => "IFIndex"
    case MTU => "MTU"
    case Speed => "Speed"
    case Collisions => "Collisions"
    case Multicast => "Multicast"
    case RxBytes => "RxBytes"
    case RxCompressed => "RxCompressed"
    case RxCrcErrors => "RxCrcErrors"
    case RxDropped => "RxDropped"
    case RxErrors => "RxErrors"
    case RxFifoErrors => "RxFifoErrors"
    case RxFrameErrors => "RxFrameErrors"
    case RxLengthErrors => "RxLengthErrors"
    case RxMissedErrors => "RxMissedErrors"
    case RxNohandler => "RxNohandler"
    case RxOverErrors => "RxOverErrors"
    case RxPackets => "RxPackets"
    case TxAbortedErrors => "TxAbortedErrors"
    case TxBytes => "TxBytes"
    case TxCarrierErrors => "TxCarrierErrors"
    case TxCompressed => "TxCompressed"
    case TxDropped => "TxDropped"
    case TxErrors => "TxErrors"
    case TxFifoErrors => "TxFifoErrors"
    case TxHeartbeatErrors => "TxHeartbeatErrors"
    case TxPackets => "TxPackets"
    case TxWindowErrors => "TxWindowErrors"
  }

  /** `fmt.Sprintf("%s_<Field>", name)` */
  function Key(name: string, f: Field): (k: string)
    ensures |k| > |name| && k[..|name|] == name && k[|name|] == '_'
  {
    name + "_" + FieldName(f)
  }

  /** The field whose key suffix is the given text, if any. */
  function FieldNamed(s: string): Option<Field> {
    if |s| > 0 && s[0] == 'R' then ReceiveFieldNamed(s)
    else if |s| > 0 && s[0] == 'T' then TransmitFieldNamed(s)
    else if s == "IFIndex" then Some(IFIndex)
    else if s == "MTU" then Some(MTU)
    else if s == "Speed" then Some(Speed)
    else if s == "Collisions" then Some(Collisions)
    else if s == "Multicast" then Some(Multicast)
    else None
  }

  function ReceiveFieldNamed(s: string): Option<Field> {
    if s == "RxBytes" then Some(RxBytes)
    else if s == "RxCompressed" then Some(RxCompressed)
    else if s == "RxCrcErrors" then Some(RxCrcErrors)
    else if s == "RxDropped" then Some(RxDropped)
    else if s == "RxErrors" then Some(RxErrors)
    else if s == "RxFifoErrors" then Some(RxFifoErrors)
    else if s == "RxFrameErrors" then Some(RxFrameErrors)
    else if s == "RxLengthErrors" then Some(RxLengthErrors)
    else if s == "RxMissedErrors" then Some(RxMissedErrors)
    else if s == "RxNohandler" then Some(RxNohandler)
    else if s == "RxOverErrors" then Some(RxOverErrors)
    else if s == "RxPackets" then Some(RxPackets)
    else None
  }

  function TransmitFieldNamed(s: string): Option<Field> {
    if s == "TxAbortedErrors" then Some(TxAbortedErrors)
    else if s == "TxBytes" then Some(TxBytes)
    else if s == "TxCarrierErrors" then Some(TxCarrierErrors)
    else if s == "TxCompressed" then Some(TxCompressed)
    else if s == "TxDropped" then Some(TxDropped)
    else if s == "TxErrors" then Some(TxErrors)
    else if s == "TxFifoErrors" then Some(TxFifoErrors)
    else if s == "TxHeartbeatErrors" then Some(TxHeartbeatErrors)
    else if s == "TxPackets" then Some(TxPackets)
    else if s == "TxWindowErrors" then Some(TxWindowErrors)
    else None
  }

  /** Every field's key suffix names that field back. */
  lemma FieldNameRoundTrip(f: Field)
    ensures FieldNamed(FieldName(f)) == Some(f)
  {
    var g := FieldGroup(f);
    if g == 0 {
      GroupRoundTrip0(f);
    } else if g == 1 {
      GroupRoundTrip1(f);
    } else if g == 2 {
      GroupRoundTrip2(f);
    } else if g == 3 {
      GroupRoundTrip3(f);
    } else if g == 4 {
      GroupRoundTrip4(f);
    } else if g == 5 {
      GroupRoundTrip5(f);
    } else {
      GroupRoundTrip6(f);
    }
  }

  /** No key suffix contains the separator. */
  lemma FieldNameNoUnderscore(f: Field)
    ensures '_' !in FieldName(f)
  {
    var g := FieldGroup(f);
    if g == 0 {
      GroupNoUnderscore0(f);
    } else if g == 1 {
      GroupNoUnderscore1(f);
    } else if g == 2 {
      GroupNoUnderscore2(f);
    } else if g == 3 {
      GroupNoUnderscore3(f);
    } else if g == 4 {
      GroupNoUnderscore4(f);
    } else if g == 5 {
      GroupNoUnderscore5(f);
    } else {
      GroupNoUnderscore6(f);
    }
  }

  /**
   * The fields in seven small groups. `FieldNameRoundTrip` and
   * `FieldNameNoUnderscore` are each one property of all 27 fields, but a
   * single proof over every field at once is costly for the verifier, so
   * each is proved group by group (`GroupRoundTrip0` ... `GroupRoundTrip6`,
   * `GroupNoUnderscore0` ... `GroupNoUnderscore6`) and dispatched on the
   * group.
   */
  function FieldGroup(f: Field): (g: nat)
    ensures g < 7
  {
    match f
    case IFIndex | MTU | Speed | Collisions | Multicast => 0
    case RxBytes | RxCompressed | RxCrcErrors | RxDropped => 1
    case RxErrors | RxFifoErrors | RxFrameErrors | RxLengthErrors => 2
    case RxMissedErrors | RxNohandler | RxOverErrors | RxPackets => 3
    case TxAbortedErrors | TxBytes | TxCarrierErrors | TxCompressed => 4
    case TxDropped | TxErrors | TxFifoErrors => 5
    case TxHeartbeatErrors | TxPackets | TxWindowErrors => 6
  }

  lemma GroupRoundTrip0(f: Field)
    requires FieldGroup(f) == 0
    ensures FieldNamed(FieldName(f)) == Some(f)
  {
  }

  lemma GroupRoundTrip1(f: Field)
    requires FieldGroup(f) == 1
    ensures FieldNamed(FieldName(f)) == Some(f)
  {
  }

  lemma GroupRoundTrip2(f: Field)
    requires FieldGroup(f) == 2
    ensures FieldNamed(FieldName(f)) == Some(f)
  {
  }

  lemma GroupRoundTrip3(f: Field)
    requires FieldGroup(f) == 3
    ensures FieldNamed(FieldName(f)) == Some(f)
  {
  }

  lemma GroupRoundTrip4(f: Field)
    requires FieldGroup(f) == 4
    ensures FieldNamed(FieldName(f)) == Some(f)
  {
  }

  lemma GroupRoundTrip5(f: Field)
    requires FieldGroup(f) == 5
    ensures FieldNamed(FieldName(f)) == Some(f)
  {
  }

  lemma GroupRoundTrip6(f: Field)
    requires FieldGroup(f) == 6
    ensures FieldNamed(FieldName(f)) == Some(f)
  {
  }

  lemma GroupNoUnderscore0(f: Field)
    requires FieldGroup(f) == 0
    ensures '_' !in FieldName(f)
  {
  }

  lemma GroupNoUnderscore1(f: Field)
    requires FieldGroup(f) == 1
    ensures '_' !in FieldName(f)
  {
  }

  lemma GroupNoUnderscore2(f: Field)
    requires FieldGroup(f) == 2
    ensures '_' !in FieldName(f)
  {
  }

  lemma GroupNoUnderscore3(f: Field)
    requires FieldGroup(f) == 3
    ensures '_' !in FieldName(f)
  {
  }

  lemma GroupNoUnderscore4(f: Field)
    requires FieldGroup(f) == 4
    ensures '_' !in FieldName(f)
  {
  }

  lemma GroupNoUnderscore5(f: Field)
    requires FieldGroup(f) == 5
    ensures '_' !in FieldName(f)
  {
  }

  lemma GroupNoUnderscore6(f: Field)
    requires FieldGroup(f) == 6
    ensures '_' !in FieldName(f)
  {
  }

  /** Joined with a shorter suffix, the separator falls inside the longer one. */
  lemma UnderscoreInside(n1: string, a: string, n2: string, b: string)
    requires n1 + "_" + a == n2 + "_" + b
    requires |a| < |b|
    ensures b[|b| - |a| - 1] == '_'
  {
    var k := n1 + "_" + a;
    assert k[|n1|] == '_';
    assert k[|n1|] == b[|b| - |a| - 1];
  }

  /** Text joined by an underscore splits back at its last underscore. */
  lemma SplitAtLastUnderscore(n1: string, a: string, n2: string, b: string)
    requires '_' !in a && '_' !in b
    requires n1 + "_" + a == n2 + "_" + b
    ensures n1 == n2 && a == b
  {
    var k := n1 + "_" + a;
    if |a| < |b| {
      UnderscoreInside(n1, a, n2, b);
      assert false;
    } else if |b| < |a| {
      UnderscoreInside(n2, b, n1, a);
      assert false;
    } else {
      assert a == k[|k| - |a|..] == b;
      assert n1 == k[..|n1|] == n2;
    }
  }

  /**
   * Distinct (name, field) pairs never share a key: no field suffix holds
   * an underscore, so the last underscore of a key separates its two parts.
   */
  lemma KeyInjective(n1: string, f1: Field, n2: string, f2: Field)
    ensures Key(n1, f1) == Key(n2, f2) ==> n1 == n2 && f1 == f2
  {
    if Key(n1, f1) == Key(n2, f2) {
      FieldNameNoUnderscore(f1);
      FieldNameNoUnderscore(f2);
      SplitAtLastUnderscore(n1, FieldName(f1), n2, FieldName(f2));
      FieldNameRoundTrip(f1);
      FieldNameRoundTrip(f2);
    }
  }

  /**
   * A counter of the table: an interface name and one of its 27 fields. Its
   * key in main.go's `counters` map is `Key(iface, field)` (the Prometheus
   * metric it holds is registered under a snake_case name, such as
   * `<name>_rx_bytes`, which is not modelled), and distinct counters
   * have distinct keys (`KeyInjective`), so the table is modelled over
   * these pairs and rendered to strings by `Table`.
   */
  datatype CounterId = CounterId(iface: string, field: Field)

  /** The 27 counters of one interface name. */
  function KeysOf(name: string): set<CounterId> {
    set f | f in AllFields :: CounterId(name, f)
  }

  /** The counters of a set of interface names: names times fields. */
  function KeysFor(names: set<string>): set<CounterId> {
    set n, f | n in names && f in AllFields :: CounterId(n, f)
  }

  /** The `counters` map keys of a set of interface names, as main.go spells them. */
  function StringKeysFor(names: set<string>): set<string> {
    set n, f | n in names && f in AllFields :: Key(n, f)
  }

  lemma KeyInKeysOf(name: string, n: string, f: Field)
    ensures CounterId(n, f) in KeysOf(name) <==> n == name
  {
    AllFieldsComplete(f);
  }

  lemma KeyInKeysFor(names: set<string>, n: string, f: Field)
    ensures CounterId(n, f) in KeysFor(names) <==> n in names
  {
    AllFieldsComplete(f);
  }

  lemma KeysForAdd(names: set<string>, name: string)
    ensures KeysFor(names + {name}) == KeysFor(names) + KeysOf(name)
  {
  }

  lemma KeysForRemove(names: set<string>, name: string)
    ensures KeysFor(names - {name}) == KeysFor(names) - KeysOf(name)
  {
  }

  lemma AllKeysInjective()
    ensures forall a: CounterId, b: CounterId :: Key(a.iface, a.field) == Key(b.iface, b.field) ==> a == b
  {
    forall a: CounterId, b: CounterId ensures Key(a.iface, a.field) == Key(b.iface, b.field) ==> a == b {
      KeyInjective(a.iface, a.field, b.iface, b.field);
    }
  }

  /** A table holding the counters of some names renders to exactly those names' string keys. */
  lemma TableKeys(counters: map<CounterId, int>, names: set<string>)
    requires counters.Keys == KeysFor(names)
    ensures Table(counters).Keys == StringKeysFor(names)
  {
    forall k | k in StringKeysFor(names) ensures k in Table(counters) {
      var n, f :| n in names && f in AllFields && k == Key(n, f);
      assert CounterId(n, f) in counters;
    }
  }

  /** main.go's `counters` map: each counter under its `"<name>_<Field>"` string. */
  function Table(counters: map<CounterId, int>): (t: map<string, int>)
    ensures t.Keys == set id | id in counters :: Key(id.iface, id.field)
    ensures forall id :: id in counters ==> t[Key(id.iface, id.field)] == counters[id]
  {
    AllKeysInjective();
    map id | id in counters :: Key(id.iface, id.field) := counters[id]
  }

  /** The name-to-record map of a snapshot list; a later entry with the same name wins. */
  function ByName(list: seq<NetworkInterface>): (m: map<string, NetworkInterface>)
    ensures forall n :: n in m ==> m[n].name == n && m[n] in list
  {
    if |list| == 0 then map[]
    else ByName(list[..|list| - 1])[list[|list| - 1].name := list[|list| - 1]]
  }

  /** The position of the last record with the given name, or -1. */
  function LastWith(list: seq<NetworkInterface>, name: string): (i: int)
    ensures -1 <= i < |list|
    ensures i >= 0 ==> list[i].name == name
    ensures forall j :: i < j < |list| ==> list[j].name != name
  {
    if |list| == 0 then -1
    else if list[|list| - 1].name == name then |list| - 1
    else LastWith(list[..|list| - 1], name)
  }

  /**
   * The map holds exactly the names in the list, each mapped to the last
   * record with that name.
   */
  lemma {:induction false} ByNameMeaning(list: seq<NetworkInterface>, name: string)
    ensures name in ByName(list) <==> LastWith(list, name) >= 0
    ensures name in ByName(list) ==> ByName(list)[name] == list[LastWith(list, name)]
  {
    if |list| > 0 {
      ByNameMeaning(list[..|list| - 1], name);
    }
  }

  /** The loop that fills the name-to-record map, one record at a time in list order. */
  method IndexByName(list: seq<NetworkInterface>) returns (m: map<string, NetworkInterface>)
    ensures m == ByName(list)
  {
    m := map[];
    for i := 0 to |list|
      invariant m == ByName(list[..i])
    {
      assert list[..i + 1][..i] == list[..i];
      m := m[list[i].name := list[i]];
    }
    assert list[..|list|] == list;
  }

  class InterfaceCollector {
    /** The counter table: each counter's value, keyed by interface name and field (see `Table`). */
    var counters: map<CounterId, int>
    /** `lastNetworkInterfaces`: the name-to-record map of the previous poll. */
    var last: map<string, NetworkInterface>

    /** The table holds exactly the 27 keys of every name of the previous poll. */
    ghost predicate Valid()
      reads this
    {
      && counters.Keys == KeysFor(last.Keys)
      && forall n, f :: n in last ==> CounterId(n, f) in counters
    }

    constructor ()
      ensures Valid() && counters == map[] && last == map[]
    {
      counters := map[];
      last := map[];
    }

    /** Create the 27 counters of an interface, each starting at 0. */
    method AddInterface(name: string)
      modifies this
      ensures last == old(last)
      ensures counters.Keys == old(counters).Keys + KeysOf(name)
      ensures forall f :: CounterId(name, f) in counters && counters[CounterId(name, f)] == 0
      ensures forall k :: k in old(counters) && k !in KeysOf(name) ==> counters[k] == old(counters)[k]
    {
      for j := 0 to |AllFields|
        invariant last == old(last)
        invariant counters.Keys == old(counters).Keys + set f | f in AllFields[..j] :: CounterId(name, f)
        invariant forall f :: f in AllFields[..j] ==> counters[CounterId(name, f)] == 0
        invariant forall k :: k in old(counters) && k !in KeysOf(name) ==> counters[k] == old(counters)[k]
      {
        assert AllFields[..j + 1] == AllFields[..j] + [AllFields[j]];
        counters := counters[CounterId(name, AllFields[j]) := 0];
      }
      assert AllFields[..|AllFields|] == AllFields;
      forall f ensures CounterId(name, f) in counters && counters[CounterId(name, f)] == 0 {
        AllFieldsComplete(f);
      }
    }

    /** Add one record's raw field values to its interface's counters. */
    method AddValues(name: string, ni: NetworkInterface)
      requires forall f :: CounterId(name, f) in counters
      modifies this
      ensures last == old(last)
      ensures counters.Keys == old(counters).Keys
      ensures forall f :: counters[CounterId(name, f)] == old(counters)[CounterId(name, f)] + FieldValue(ni, f)
      ensures forall k :: k in old(counters) && k !in KeysOf(name) ==> counters[k] == old(counters)[k]
    {
      var todo := set f | f in AllFields;
      forall f ensures f in todo {
        AllFieldsComplete(f);
      }
      while todo != {}
        invariant last == old(last)
        invariant counters.Keys == old(counters).Keys
        invariant forall f :: f !in todo ==> counters[CounterId(name, f)] == old(counters)[CounterId(name, f)] + FieldValue(ni, f)
        invariant forall f :: f in todo ==> counters[CounterId(name, f)] == old(counters)[CounterId(name, f)]
        invariant forall k :: k in old(counters) && k !in KeysOf(name) ==> counters[k] == old(counters)[k]
        decreases todo
      {
        var f :| f in todo;
        counters := counters[CounterId(name, f) := counters[CounterId(name, f)] + FieldValue(ni, f)];
        todo := todo - {f};
      }
    }

    /** Delete the 27 counters of an interface. */
    method RemoveInterface(name: string)
      modifies this
      ensures last == old(last)
      ensures counters == old(counters) - KeysOf(name)
    {
      for j := 0 to |AllFields|
        invariant last == old(last)
        invariant counters == old(counters) - set f | f in AllFields[..j] :: CounterId(name, f)
      {
        assert AllFields[..j + 1] == AllFields[..j] + [AllFields[j]];
        counters := counters - {CounterId(name, AllFields[j])};
      }
      assert AllFields[..|AllFields|] == AllFields;
    }
      /** Give every name of `current` not seen by the previous poll 27 counters starting at 0. */
    method AddNewInterfaces(current: map<string, NetworkInterface>)
      requires Valid()
      modifies this
      ensures last == old(last)
      ensures counters.Keys == KeysFor(last.Keys + current.Keys)
      ensures forall n, f :: n in last ==> CounterId(n, f) in counters && counters[CounterId(n, f)] == old(counters)[CounterId(n, f)]
      ensures forall n, f :: n in current && n !in last ==> CounterId(n, f) in counters && counters[CounterId(n, f)] == 0
    {
      var pending := current.Keys;
      while pending != {}
        invariant pending <= current.Keys
        invariant counters.Keys == KeysFor(last.Keys + (current.Keys - pending))
        invariant last == old(last)
        invariant forall n, f :: n in last ==> CounterId(n, f) in counters && counters[CounterId(n, f)] == old(counters)[CounterId(n, f)]
        invariant forall n, f :: n in current.Keys - pending && n !in last ==> CounterId(n, f) in counters && counters[CounterId(n, f)] == 0
        decreases pending
      {
        var name :| name in pending;
        if name !in last {
          AddInterface(name);
          KeysForAdd(last.Keys + (current.Keys - pending), name);
        }
        assert last.Keys + (current.Keys - (pending - {name})) == last.Keys + (current.Keys - pending) + {name};
        pending := pending - {name};
      }
      assert last.Keys + current.Keys == last.Keys + (current.Keys - pending);
    }

    /** Add every record's raw field values to its interface's counters. */
    method AddAllValues(current: map<string, NetworkInterface>)
      requires forall n, f :: n in current ==> CounterId(n, f) in counters
      modifies this
      ensures last == old(last)
      ensures counters.Keys == old(counters).Keys
      ensures forall n, f :: n in current ==> counters[CounterId(n, f)] == old(counters)[CounterId(n, f)] + FieldValue(current[n], f)
      ensures forall k :: k in old(counters) && k.iface !in current ==> counters[k] == old(counters)[k]
    {
      var pending := current.Keys;
      while pending != {}
        invariant pending <= current.Keys
        invariant counters.Keys == old(counters).Keys
        invariant last == old(last)
        invariant forall n, f :: n in current.Keys - pending ==> counters[CounterId(n, f)] == old(counters)[CounterId(n, f)] + FieldValue(current[n], f)
        invariant forall n, f :: n in pending ==> counters[CounterId(n, f)] == old(counters)[CounterId(n, f)]
        invariant forall k :: k in old(counters) && k.iface !in current ==> counters[k] == old(counters)[k]
        decreases pending
      {
        var name :| name in pending;
        AddValues(name, current[name]);
        pending := pending - {name};
      }
    }

    /** Delete the counters of every name of the previous poll that `current` lacks. */
    method RemoveVanished(current: map<string, NetworkInterface>)
      requires counters.Keys == KeysFor(last.Keys + current.Keys)
      modifies this
      ensures last == old(last)
      ensures counters.Keys == KeysFor(current.Keys)
      ensures forall k :: k in counters ==> counters[k] == old(counters)[k]
    {
      var pending := last.Keys;
      while pending != {}
        invariant pending <= last.Keys
        invariant last == old(last)
        invariant counters.Keys == KeysFor(current.Keys + pending)
        invariant forall k :: k in counters ==> counters[k] == old(counters)[k]
        decreases pending
      {
        var name :| name in pending;
        if name !in current {
          RemoveInterface(name);
          KeysForRemove(current.Keys + pending, name);
          assert current.Keys + pending - {name} == current.Keys + (pending - {name});
        } else {
          assert current.Keys + pending == current.Keys + (pending - {name});
        }
        pending := pending - {name};
      }
      assert current.Keys + pending == current.Keys;
    }

    /**
     * One tick of the interface poller. A failed snapshot is fatal
     * (`log.Fatal` ends the process), so nothing changes and the caller
     * stops. Otherwise the new name-to-record map replaces the old one, every
     * name present now but not before gets fresh counters, every present
     * name's counters grow by its record's raw values, and the counters of
     * every vanished name are deleted.
     */
    method Poll(source: Result<seq<NetworkInterface>, FetchError>) returns (fatal: bool)
      requires Valid()
      modifies this
      ensures Valid()
      ensures fatal <==> source.Failure?
      ensures fatal ==> counters == old(counters) && last == old(last)
      ensures !fatal ==> last == ByName(source.value)
      ensures !fatal ==> forall n, f :: n in last ==>
        counters[CounterId(n, f)] == (if n in old(last) then old(counters)[CounterId(n, f)] else 0) + FieldValue(last[n], f)
    {
      if source.Failure? {
        return true;
      }
      fatal := false;
      var current := IndexByName(source.value);
      AddNewInterfaces(current);
      AddAllValues(current);
      RemoveVanished(current);
      last := current;
      forall n, f | n in last ensures CounterId(n, f) in counters {
        KeyInKeysFor(last.Keys, n, f);
      }
    }
  }

  type Poll = Result<seq<NetworkInterface>, FetchError>

  /** The name-to-record maps of the polls before the first failed one. */
  function History(polls: seq<Poll>): seq<map<string, NetworkInterface>> {
    if |polls| == 0 || polls[0].Failure? then []
    else [ByName(polls[0].value)] + History(polls[1..])
  }

  /** The map the poller keeps after a history of polls. */
  function Latest(history: seq<map<string, NetworkInterface>>): map<string, NetworkInterface> {
    if |history| == 0 then map[] else history[|history| - 1]
  }

  /**
   * The value of counter `CounterId(name, f)` after a history: the sum of the raw
   * field values over the unbroken run of most recent polls that saw the
   * interface, and 0 (no counter) when the latest poll did not.
   */
  function TrailingSum(history: seq<map<string, NetworkInterface>>, name: string, f: Field): int {
    if |history| == 0 || name !in history[|history| - 1] then 0
    else TrailingSum(history[..|history| - 1], name, f) + FieldValue(history[|history| - 1][name], f)
  }

  lemma {:induction false} HistorySnoc(polls: seq<Poll>, p: Poll)
    requires forall k :: 0 <= k < |polls| ==> polls[k].Success?
    ensures History(polls + [p]) == History(polls) + (if p.Success? then [ByName(p.value)] else [])
  {
    if |polls| > 0 {
      assert (polls + [p])[1..] == polls[1..] + [p];
      HistorySnoc(polls[1..], p);
    }
  }

  lemma {:induction false} HistoryStops(polls: seq<Poll>, rest: seq<Poll>)
    requires |polls| > 0 && polls[|polls| - 1].Failure?
    ensures History(polls + rest) == History(polls)
  {
    if polls[0].Success? {
      assert (polls + rest)[1..] == polls[1..] + rest;
      HistoryStops(polls[1..], rest);
    }
  }

  /** One more poll: a present name's counter grows from its old value, or from 0 if it is new. */
  lemma TrailingSumStep(history: seq<map<string, NetworkInterface>>, current: map<string, NetworkInterface>, name: string, f: Field)
    ensures TrailingSum(history + [current], name, f) ==
      if name in current then (if name in Latest(history) then TrailingSum(history, name, f) else 0) + FieldValue(current[name], f)
      else 0
  {
    assert (history + [current])[..|history|] == history;
  }

  /**
   * An interface that each of the last `k` polls reports with the same
   * record, and the poll before them did not, has each counter at `k` times
   * the raw value: the poller adds the absolute reading on every tick, not
   * the change since the previous one.
   */
  lemma {:induction false} SteadyInterfaceCounter(history: seq<map<string, NetworkInterface>>, k: nat, name: string, r: NetworkInterface, f: Field)
    requires k <= |history|
    requires forall i :: |history| - k <= i < |history| ==> name in history[i] && history[i][name] == r
    requires k < |history| ==> name !in history[|history| - k - 1]
    ensures TrailingSum(history, name, f) == k * FieldValue(r, f)
  {
    if k > 0 {
      var front := history[..|history| - 1];
      SteadyInterfaceCounter(front, k - 1, name, r, f);
      assert (k - 1) * FieldValue(r, f) + FieldValue(r, f) == k * FieldValue(r, f);
    }
  }

  /**
   * The poller goroutine over a sequence of snapshot outcomes: it polls until
   * the outcomes run out or one fails, which ends the process. The counter
   * table then holds exactly the keys of the last successful poll's names,
   * each at its trailing sum over the polls before the failure.
   */
  method RunCollector(polls: seq<Poll>) returns (table: map<string, int>, live: map<string, NetworkInterface>, exited: bool)
    ensures exited <==> exists k :: 0 <= k < |polls| && polls[k].Failure?
    ensures live == Latest(History(polls))
    ensures table.Keys == StringKeysFor(live.Keys)
    ensures forall n, f :: n in live ==> Key(n, f) in table && table[Key(n, f)] == TrailingSum(History(polls), n, f)
  {
    var c := new InterfaceCollector();
    var i := 0;
    exited := false;
    while i < |polls|
      invariant 0 <= i <= |polls|
      invariant c.Valid()
      invariant forall k :: 0 <= k < i ==> polls[k].Success?
      invariant c.last == Latest(History(polls[..i]))
      invariant forall n, f :: n in c.last ==> c.counters[CounterId(n, f)] == TrailingSum(History(polls[..i]), n, f)
    {
      ghost var h := History(polls[..i]);
      HistorySnoc(polls[..i], polls[i]);
      assert polls[..i + 1] == polls[..i] + [polls[i]];
      exited := c.Poll(polls[i]);
      if exited {
        break;
      }
      forall n, f | n in c.last ensures c.counters[CounterId(n, f)] == TrailingSum(h + [c.last], n, f) {
        TrailingSumStep(h, c.last, n, f);
      }
      i := i + 1;
    }
    if exited {
      HistoryStops(polls[..i + 1], polls[i + 1..]);
      assert polls[..i + 1] + polls[i + 1..] == polls;
    } else {
      assert polls[..i] == polls;
    }
    assert History(polls) == History(polls[..i]);
    live := c.last;
    table := Table(c.counters);
    TableKeys(c.counters, live.Keys);
    forall n, f | n in live ensures Key(n, f) in table && table[Key(n, f)] == TrailingSum(History(polls), n, f) {
      KeyInKeysFor(live.Keys, n, f);
    }
  }
}
