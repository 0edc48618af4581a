/** The list logic of the desktop window in main.py: the device list and its
    "ip - hostname" entries, the manual address check, the capped transfer
    history and the list of selected files.  Widgets, dialogs and message
    boxes are not modelled: a message box becomes the `Notice` a method
    returns. */
module Gui {
  import opened Common
  import opened Text
  import opened Paths
  import opened Config
  import opened NetworkUtils
  import opened Discovery

  // -------------------------------------------------------- IP addresses

  /** The manual address check: four '.'-separated parts, each a non-empty
      run of digits whose value is at most 255 (leading zeros allowed). */
  predicate IsValidIp(s: string)
    ensures IsValidIp(s) ==> |s| >= 7
  {
    var parts := Split(s, '.');
    var b := |parts| == 4 && forall k :: 0 <= k < 4 ==> IsDigitString(parts[k]) && ParseDecimal(parts[k]) <= 255;
    if b then
      JoinSplit(s, '.');
      JoinNonEmptyLength(parts, '.');
      b
    else b
  }

  predicate IsOctetText(p: string)
  {
    IsDigitString(p) && ParseDecimal(p) <= 255
  }

  /** Every accepted address is four octet texts joined by '.'. */
  lemma ValidIpIsFourOctets(s: string)
    requires IsValidIp(s)
    ensures var parts := Split(s, '.');
      |parts| == 4 && s == JoinWith(parts, '.') && forall k :: 0 <= k < 4 ==> IsOctetText(parts[k])
  {
    JoinSplit(s, '.');
  }

  /** Four octet texts joined by '.' are accepted. */
  lemma FourOctetsAreValid(p0: string, p1: string, p2: string, p3: string)
    requires IsOctetText(p0) && IsOctetText(p1) && IsOctetText(p2) && IsOctetText(p3)
    ensures IsValidIp(JoinWith([p0, p1, p2, p3], '.'))
  {
    var parts := [p0, p1, p2, p3];
    assert forall k :: 0 <= k < 4 ==> IsOctetText(parts[k]);
    SplitJoin(parts, '.');
  }

  lemma DecimalOctet(n: nat)
    requires n <= 255
    ensures IsOctetText(Decimal(n))
  {
    DecimalRoundTrip(n);
  }

  /** The usual dotted-quad text of four octets is accepted. */
  lemma DottedQuadAccepted(a: nat, b: nat, c: nat, d: nat)
    requires a <= 255 && b <= 255 && c <= 255 && d <= 255
    ensures IsValidIp(JoinWith([Decimal(a), Decimal(b), Decimal(c), Decimal(d)], '.'))
  {
    DecimalOctet(a);
    DecimalOctet(b);
    DecimalOctet(c);
    DecimalOctet(d);
    FourOctetsAreValid(Decimal(a), Decimal(b), Decimal(c), Decimal(d));
  }

  lemma {:induction false} JoinWithAvoids(parts: seq<string>, d: char, c: char)
    requires |parts| >= 1 && c != d
    requires forall k :: 0 <= k < |parts| ==> c !in parts[k]
    ensures c !in JoinWith(parts, d)
  {
    if |parts| > 1 {
      JoinWithAvoids(parts[1..], d, c);
    }
  }

  /** An accepted address holds no space. */
  lemma ValidIpHasNoSpace(s: string)
    requires IsValidIp(s)
    ensures ' ' !in s
  {
    var parts := Split(s, '.');
    ValidIpIsFourOctets(s);
    forall k | 0 <= k < 4
      ensures ' ' !in parts[k]
    {
      assert IsDigitString(parts[k]);
    }
    JoinWithAvoids(parts, '.', ' ');
  }

  // ------------------------------------------------------ device entries

  /** `f"{v}"` for a field value: a string as it is, an integer as its
      decimal text, which reads back as the same number. */
  function Show(v: Value): (t: string)
    ensures v.Str? ==> t == v.s
    ensures v.Int? ==> t != [] && (t[0] == '-' <==> v.i < 0)
    ensures v.Int? && v.i >= 0 ==> AllDigits(t) && ParseDecimal(t) == v.i
  {
    match v
    case Str(s) => s
    case Int(i) =>
      if i >= 0 then DecimalRoundTrip(i); SignedDecimal(i) else SignedDecimal(i)
    case Other(text) => text
  }

  const SEPARATOR: string := " - "
  const MANUAL_HOSTNAME: string := "手动添加"

  /** A device list entry, `f"{ip} - {hostname}"`: the address, the
      separator right after it, and the host name as the rest. */
  function Entry(ip: string, hostname: string): (e: string)
    ensures |e| == |ip| + |SEPARATOR| + |hostname|
    ensures e[..|ip|] == ip && SEPARATOR <= e[|ip|..] && e[|ip| + |SEPARATOR|..] == hostname
  {
    var e := ip + SEPARATOR + hostname;
    assert e == ip + (SEPARATOR + hostname);
    assert e[|ip|..] == SEPARATOR + hostname;
    e
  }

  /** `entry.split(' - ')[0]`: the address `send_file` reads off an entry,
      everything before the first separator, or the whole entry without one. */
  function TargetIpOf(entry: string): (ip: string)
    ensures ip <= entry
    ensures forall k :: 0 <= k < |ip| ==> !(SEPARATOR <= entry[k..])
    ensures ip != entry ==> SEPARATOR <= entry[|ip|..]
    ensures ip == entry <==> forall k :: 0 <= k <= |entry| ==> !(SEPARATOR <= entry[k..])
  {
    FirstField(entry, SEPARATOR)
  }

  /** The entries `refresh_devices` lists, one per record, in order. */
  function EntriesOf(devices: seq<Device>): (entries: seq<string>)
    ensures |entries| == |devices|
    ensures forall i :: 0 <= i < |entries| ==>
              entries[i] == Entry(Show(devices[i].ip), Show(devices[i].hostname))
  {
    seq(|devices|, i requires 0 <= i < |devices| => Entry(Show(devices[i].ip), Show(devices[i].hostname)))
  }

  /** The address is read back off its entry when the separator does not
      occur in the address followed by " -" (an address ending in " -" would
      let an earlier separator straddle the real one). */
  lemma EntryIpRecovered(ip: string, hostname: string)
    requires Find(ip + " -", SEPARATOR).None?
    ensures TargetIpOf(Entry(ip, hostname)) == ip
  {
    var s := Entry(ip, hostname);
    forall k | 0 <= k < |ip|
      ensures !(SEPARATOR <= s[k..])
    {
      SameWindow(ip, hostname, k);
    }
    var r := Find(s, SEPARATOR);
    assert r.Some? && r.value == |ip|;
  }

  /** Before the address ends, the entry and the address followed by " -"
      agree on the three characters from `k`. */
  lemma SameWindow(ip: string, hostname: string, k: nat)
    requires k < |ip|
    ensures (SEPARATOR <= Entry(ip, hostname)[k..]) == (SEPARATOR <= (ip + " -")[k..])
  {
    var s, t := Entry(ip, hostname), ip + " -";
    assert s[k..k + 3] == t[k..k + 3];
    assert (SEPARATOR <= s[k..]) == (s[k..k + 3] == SEPARATOR);
    assert (SEPARATOR <= t[k..]) == (t[k..k + 3] == SEPARATOR);
  }

  /** The address "a -" comes back as "a": the condition above is needed. */
  lemma StraddlingSeparator()
    ensures TargetIpOf(Entry("a -", "h")) == "a"
  {
    var s := Entry("a -", "h");
    assert s == "a - - h";
    assert s[..3] != SEPARATOR by {
      assert s[0] == 'a';
    }
    assert SEPARATOR <= s[1..];
  }

  /** Every accepted address is read back off its entry. */
  lemma ValidIpRecovered(ip: string, hostname: string)
    requires IsValidIp(ip)
    ensures TargetIpOf(Entry(ip, hostname)) == ip
  {
    ValidIpHasNoSpace(ip);
    var t := ip + " -";
    forall k | 0 <= k <= |t|
      ensures !(SEPARATOR <= t[k..])
    {
      if k + 3 <= |t| {
        assert t[k..][0] == t[k] == ip[k];
      }
    }
    assert Find(t, SEPARATOR).None?;
    EntryIpRecovered(ip, hostname);
  }

  // ----------------------------------------------------- message boxes

  /** The message box an action ends with. */
  datatype Notice = Info(text: string) | Warning(text: string) | Error(text: string)

  const ASK_FOR_IP: string := "请输入IP地址"
  const INVALID_IP: string := "请输入有效的IP地址"
  const ALREADY_LISTED: string := "该设备已存在于列表中"
  const ADDED_PREFIX: string := "已添加设备: "

  // ------------------------------------------------- manual device entry

  /** Some entry of the list starts with `ip + " - "`. */
  predicate Listed(entries: seq<string>, ip: string)
  {
    exists j :: 0 <= j < |entries| && ip + SEPARATOR <= entries[j]
  }

  /** `add_manual_device` on the list and the typed text: the new list and
      the message shown.  Text that is empty or all white space only warns. */
  function ManualAdd(entries: seq<string>, input: string): (r: (seq<string>, Notice))
    ensures r.0 == entries || r.0 == entries + [Entry(Strip(input), MANUAL_HOSTNAME)]
    ensures (forall k :: 0 <= k < |input| ==> IsSpace(input[k])) ==> r == (entries, Warning(ASK_FOR_IP))
  {
    ManualAddStripped(entries, Strip(input))
  }

  /** The same, once the text is stripped: the entry is added, with an
      information box, exactly for a valid address not yet listed, which is
      listed afterwards; otherwise the list stays as it was. */
  function ManualAddStripped(entries: seq<string>, ip: string): (r: (seq<string>, Notice))
    ensures r.1.Info? <==> IsValidIp(ip) && !Listed(entries, ip)
    ensures r.0 == if r.1.Info? then entries + [Entry(ip, MANUAL_HOSTNAME)] else entries
    ensures r.1.Info? ==> Listed(r.0, ip)
  {
    if ip == [] then (entries, Warning(ASK_FOR_IP))
    else if !IsValidIp(ip) then (entries, Error(INVALID_IP))
    else if Listed(entries, ip) then (entries, Warning(ALREADY_LISTED))
    else
      var grown := entries + [Entry(ip, MANUAL_HOSTNAME)];
      assert ip + SEPARATOR <= grown[|entries|];
      (grown, Info(ADDED_PREFIX + ip))
  }

  /** Adding the same text twice adds it once: after an addition the
      address is listed, so the second attempt changes nothing. */
  lemma ManualAddIdempotent(entries: seq<string>, input: string)
    ensures ManualAdd(ManualAdd(entries, input).0, input).0 == ManualAdd(entries, input).0
  {
    var ip := Strip(input);
    if ip != [] && IsValidIp(ip) && !Listed(entries, ip) {
      var e := ManualAdd(entries, input).0;
      assert ip + SEPARATOR <= e[|entries|];
    }
  }

  /** The list only ever grows by one entry whose address is the stripped
      text, is a valid address and is read back by `send_file`; any other
      outcome leaves the list as it was. */
  lemma ManualAddOutcome(entries: seq<string>, input: string)
    ensures var (e, notice) := ManualAdd(entries, input);
      (e == entries && !notice.Info?) ||
      (notice.Info? && e == entries + [e[|e| - 1]] && IsValidIp(Strip(input))
        && !Listed(entries, Strip(input)) && TargetIpOf(e[|e| - 1]) == Strip(input))
  {
    var ip := Strip(input);
    if ip != [] && IsValidIp(ip) {
      ValidIpRecovered(ip, MANUAL_HOSTNAME);
    }
  }

  // ------------------------------------------------------------ history

  const SENT_OK: string := "发送成功"
  const SENT_FAILED: string := "发送失败"
  const SENT_ERROR: string := "发送错误"

  /** The icon `add_to_history` puts before a status: each of the three
      known statuses has its own icon, and every other status gets the
      information icon. */
  function Icon(status: string): (icon: string)
    ensures icon in {"✅", "❌", "⚠️", "ℹ️"}
    ensures icon == "✅" <==> status == SENT_OK
    ensures icon == "❌" <==> status == SENT_FAILED
    ensures icon == "⚠️" <==> status == SENT_ERROR
    ensures icon == "ℹ️" <==> status !in {SENT_OK, SENT_FAILED, SENT_ERROR}
  {
    if status == SENT_OK then "✅"
    else if status == SENT_FAILED then "❌"
    else if status == SENT_ERROR then "⚠️"
    else "ℹ️"
  }

  /** `f"[{timestamp}] {icon} {status}: {basename(file_name)} -> {target_ip}"`. */
  function HistoryEntry(timestamp: string, status: string, fileName: Path, targetIp: string): (e: string)
    ensures "[" + timestamp + "] " + Icon(status) <= e
    ensures |targetIp| <= |e| && e[|e| - |targetIp|..] == targetIp
  {
    var head := "[" + timestamp + "] " + Icon(status);
    var middle := " " + status + ": " + Basename(fileName) + " -> ";
    var e := head + middle + targetIp;
    assert e == head + (middle + targetIp);
    e
  }

  /** Append an entry, then drop the oldest if the list is over the limit. */
  function Recorded(h: seq<string>, e: string): (h': seq<string>)
    ensures |h| <= HISTORY_LIMIT ==> |h'| <= HISTORY_LIMIT
    ensures |h'| >= 1 && h'[|h'| - 1] == e
    ensures |h'| == Min(|h| + 1, HISTORY_LIMIT) || |h| >= HISTORY_LIMIT
  {
    var a := h + [e];
    if |a| > HISTORY_LIMIT then a[1..] else a
  }

  /** The last `n` elements of `s` (all of them if there are fewer). */
  function Last(s: seq<string>, n: nat): seq<string>
  {
    s[|s| - Min(|s|, n)..]
  }

  /** The entries of a batch recorded one after another. */
  function RecordAll(h: seq<string>, es: seq<string>): seq<string>
    decreases |es|
  {
    if es == [] then h else RecordAll(Recorded(h, es[0]), es[1..])
  }

  lemma LastOfSuffix(x: seq<string>, y: seq<string>, r: seq<string>, n: nat)
    requires |x| <= |y| && x == y[|y| - |x|..]
    requires |x| >= Min(|y|, n)
    ensures Last(x + r, n) == Last(y + r, n)
  {
    var xr, yr := x + r, y + r;
    assert xr == yr[|y| - |x|..];
  }

  /** However many entries are recorded, the history holds exactly the 50
      most recent ones, oldest first. */
  lemma {:induction false} HistoryKeepsLatest(h: seq<string>, es: seq<string>)
    requires |h| <= HISTORY_LIMIT
    ensures RecordAll(h, es) == Last(h + es, HISTORY_LIMIT)
    decreases |es|
  {
    if es == [] {
      LastOfShort(h);
    } else {
      HistoryKeepsLatest(Recorded(h, es[0]), es[1..]);
      ConsSplit(h, es);
      RecordedThenLast(h, es[0], es[1..], h + es);
    }
  }

  /** Recording `e` and then keeping the latest entries of what follows
      keeps the same entries as keeping the latest of the whole run. */
  lemma RecordedThenLast(h: seq<string>, e: string, rest: seq<string>, full: seq<string>)
    requires full == h + [e] + rest
    ensures Last(Recorded(h, e) + rest, HISTORY_LIMIT) == Last(full, HISTORY_LIMIT)
  {
    RecordedIsSuffix(h, e);
    LastOfSuffix(Recorded(h, e), h + [e], rest, HISTORY_LIMIT);
  }

  lemma ConsSplit(h: seq<string>, es: seq<string>)
    requires es != []
    ensures h + es == h + [es[0]] + es[1..]
  {
    assert es == [es[0]] + es[1..];
  }

  lemma LastOfShort(h: seq<string>)
    requires |h| <= HISTORY_LIMIT
    ensures RecordAll(h, []) == Last(h + [], HISTORY_LIMIT)
  {
    assert h + [] == h;
    assert Min(|h|, HISTORY_LIMIT) == |h|;
    assert h[0..] == h;
  }

  /** One recorded entry leaves a suffix of the old list plus the entry,
      as long as the limit allows. */
  lemma RecordedIsSuffix(h: seq<string>, e: string)
    ensures var y, h1 := h + [e], Recorded(h, e);
      |h1| <= |y| && h1 == y[|y| - |h1|..] && |h1| >= Min(|y|, HISTORY_LIMIT)
  {
    var y := h + [e];
    if |y| > HISTORY_LIMIT {
      assert Recorded(h, e) == y[1..];
    } else {
      assert Recorded(h, e) == y[0..];
    }
  }

  // -------------------------------------------------------- file choice

  /** The elements of `s`, each once, in order of first occurrence. */
  function Dedup(s: seq<Path>): (r: seq<Path>)
    ensures forall x :: x in r <==> x in s
    ensures NoDuplicates(r)
  {
    if s == [] then []
    else
      var d := Dedup(s[..|s| - 1]);
      var x := s[|s| - 1];
      if x in d then d else d + [x]
  }

  /** The index of the first occurrence of `x` in `s`. */
  function FirstIndex(s: seq<Path>, x: Path): (i: nat)
    requires x in s
    ensures i < |s| && s[i] == x && x !in s[..i]
  {
    if s[0] == x then 0 else 1 + FirstIndex(s[1..], x)
  }

  lemma FirstIndexExtend(s: seq<Path>, t: seq<Path>, x: Path)
    requires x in s
    ensures FirstIndex(s + t, x) == FirstIndex(s, x)
  {
    var i, j := FirstIndex(s + t, x), FirstIndex(s, x);
    assert (s + t)[j] == x;
    assert (s + t)[..i] == s[..i] by {
      assert i <= j;
    }
  }

  /** Elements come out in the order in which they first occur. */
  lemma {:induction false} DedupFirstOccurrenceOrder(s: seq<Path>)
    ensures forall i, j :: 0 <= i < j < |Dedup(s)| ==> FirstIndex(s, Dedup(s)[i]) < FirstIndex(s, Dedup(s)[j])
  {
    if s != [] {
      var p := s[..|s| - 1];
      var x := s[|s| - 1];
      var d := Dedup(p);
      DedupFirstOccurrenceOrder(p);
      assert s == p + [x];
      forall y | y in d
        ensures FirstIndex(s, y) == FirstIndex(p, y)
      {
        FirstIndexExtend(p, [x], y);
      }
      if x !in d {
        assert x !in s[..|s| - 1];
        assert FirstIndex(s, x) == |s| - 1;
      }
    }
  }

  /** A list without repetitions is its own de-duplication. */
  lemma {:induction false} DedupOfDistinct(s: seq<Path>)
    requires NoDuplicates(s)
    ensures Dedup(s) == s
  {
    if s != [] {
      var p := s[..|s| - 1];
      DedupOfDistinct(p);
      assert s[|s| - 1] !in p;
      assert p + [s[|s| - 1]] == s;
    }
  }

  /** De-duplicating a longer list extends the de-duplication of its prefix. */
  lemma {:induction false} DedupGrows(s: seq<Path>, t: seq<Path>)
    ensures Dedup(s) <= Dedup(s + t)
    decreases |t|
  {
    if t == [] {
      assert s + t == s;
    } else {
      var u := t[..|t| - 1];
      DedupGrows(s, u);
      assert (s + t)[..|s + t| - 1] == s + u;
    }
  }

  /** Files already chosen (without repetitions) stay first and in their
      order when more are added. */
  lemma SelectionKeepsExisting(existing: seq<Path>, chosen: seq<Path>)
    requires NoDuplicates(existing)
    ensures existing <= Dedup(existing + chosen)
  {
    DedupOfDistinct(existing);
    DedupGrows(existing, chosen);
  }

  /** `del s[i]`: drops exactly the element at the index; the others keep
      their order, and a list without repetitions no longer holds it. */
  function RemoveAt(s: seq<Path>, i: nat): (r: seq<Path>)
    requires i < |s|
    ensures |r| == |s| - 1
    ensures forall k :: 0 <= k < i ==> r[k] == s[k]
    ensures forall k :: i <= k < |s| - 1 ==> r[k] == s[k + 1]
    ensures multiset(r) + multiset{s[i]} == multiset(s)
    ensures NoDuplicates(s) ==> NoDuplicates(r) && s[i] !in r
  {
    assert s == s[..i] + [s[i]] + s[i + 1..];
    s[..i] + s[i + 1..]
  }

  // ------------------------------------------------------------ the window

  /** The window's list state: the device list entries, the text of the
      manual address field, the transfer history and the selected files
      (an absent `selected_files` attribute is the empty list; the code only
      ever sets it to a non-empty one). */
  class App {
    var deviceEntries: seq<string>
    var manualIp: string
    var history: seq<string>
    var selectedFiles: seq<Path>

    ghost predicate Valid()
      reads this
    {
      |history| <= HISTORY_LIMIT && NoDuplicates(selectedFiles)
    }

    constructor ()
      ensures Valid()
      ensures deviceEntries == [] && manualIp == [] && history == [] && selectedFiles == []
    {
      deviceEntries, manualIp, history, selectedFiles := [], [], [], [];
    }

    /** `refresh_devices`: ask the discovery service for the peers and list
        one entry per record.  When the service raises, the list is left as
        it was. */
    method RefreshDevices(discovery: DeviceDiscovery, events: seq<RecvEvent>, now: int)
      requires Valid() && discovery.Valid()
      modifies this, discovery
      ensures Valid() && discovery.Valid()
      ensures manualIp == old(manualIp) && history == old(history) && selectedFiles == old(selectedFiles)
      ensures var listed := AllUtf8(events) && HandleAll(old(discovery.State()), Collected(events), now).1;
        deviceEntries == if listed then EntriesOf(Values(discovery.State())) else old(deviceEntries)
    {
      var devices := discovery.DiscoverDevices(events, now);
      if devices.Some? {
        deviceEntries := EntriesOf(devices.value);
      }
    }

    /** `add_manual_device`: strip the typed text, check it, look for an
        entry of that address, and append one if there is none (clearing
        the field). */
    method AddManualDevice() returns (notice: Notice)
      requires Valid()
      modifies this
      ensures Valid()
      ensures (deviceEntries, notice) == ManualAdd(old(deviceEntries), old(manualIp))
      ensures manualIp == if notice.Info? then "" else old(manualIp)
      ensures history == old(history) && selectedFiles == old(selectedFiles)
    {
      var ip := Strip(manualIp);
      ghost var outcome := ManualAddStripped(deviceEntries, ip);
      assert ManualAdd(deviceEntries, manualIp) == outcome;
      if ip == [] {
        notice := Warning(ASK_FOR_IP);
      } else if !IsValidIp(ip) {
        notice := Error(INVALID_IP);
      } else {
        var deviceExists := HasEntryFor(ip);
        if deviceExists {
          notice := Warning(ALREADY_LISTED);
        } else {
          deviceEntries := deviceEntries + [Entry(ip, MANUAL_HOSTNAME)];
          manualIp := "";
          notice := Info(ADDED_PREFIX + ip);
        }
      }
      assert (deviceEntries, notice) == outcome;
    }

    /** The scan of `add_manual_device` over the list for an entry starting
        with `ip + " - "`, stopping at the first. */
    method HasEntryFor(ip: string) returns (found: bool)
      ensures found <==> Listed(deviceEntries, ip)
    {
      found := false;
      var i := 0;
      while i < |deviceEntries|
        invariant 0 <= i <= |deviceEntries|
        invariant forall j :: 0 <= j < i ==> !(ip + SEPARATOR <= deviceEntries[j])
      {
        if ip + SEPARATOR <= deviceEntries[i] {
          return true;
        }
        i := i + 1;
      }
    }

    /** `add_to_history`: record one transfer, keeping at most 50 entries. */
    method AddToHistory(fileName: Path, targetIp: string, status: string, timestamp: string)
      requires Valid()
      modifies this
      ensures Valid()
      ensures history == Recorded(old(history), HistoryEntry(timestamp, status, fileName, targetIp))
      ensures deviceEntries == old(deviceEntries) && selectedFiles == old(selectedFiles)
      ensures manualIp == old(manualIp)
    {
      var entry := HistoryEntry(timestamp, status, fileName, targetIp);
      history := history + [entry];
      if |history| > HISTORY_LIMIT {
        history := history[1..];
      }
    }

    /** `select_file` with the files the dialog returned: merge them after
        those already selected, dropping repetitions. */
    method SelectFile(chosen: seq<Path>)
      requires Valid()
      modifies this
      ensures Valid()
      ensures selectedFiles == if chosen == [] then old(selectedFiles) else Dedup(old(selectedFiles) + chosen)
      ensures deviceEntries == old(deviceEntries) && history == old(history) && manualIp == old(manualIp)
    {
      if chosen == [] {
        return;
      }
      var all := selectedFiles + chosen;
      var unique: seq<Path> := [];
      var i := 0;
      while i < |all|
        invariant 0 <= i <= |all|
        invariant unique == Dedup(all[..i])
      {
        assert all[..i + 1][..i] == all[..i];
        if all[i] !in unique {
          unique := unique + [all[i]];
        }
        i := i + 1;
      }
      assert all[..i] == all;
      selectedFiles := unique;
    }

    /** `remove_single_file` with the list box selection: delete the file
        at the first selected index.  Without a selection or without files
        nothing happens; an index past the end raises IndexError before
        anything changes. */
    method RemoveSingleFile(selection: Option<nat>) returns (removed: bool)
      requires Valid()
      modifies this
      ensures Valid()
      ensures removed <==> selection.Some? && selection.value < |old(selectedFiles)|
      ensures selectedFiles == if removed then RemoveAt(old(selectedFiles), selection.value) else old(selectedFiles)
      ensures deviceEntries == old(deviceEntries) && history == old(history) && manualIp == old(manualIp)
    {
      if selection.None? || selectedFiles == [] || selection.value >= |selectedFiles| {
        return false;
      }
      selectedFiles := RemoveAt(selectedFiles, selection.value);
      removed := true;
    }

    /** The checks `send_file` makes before asking for confirmation: files
        must be selected and a device entry chosen; the target address is
        the entry's text before the first " - ". */
    method SendTarget(selection: Option<nat>) returns (target: Option<string>, notice: Option<Notice>)
      requires selection.Some? ==> selection.value < |deviceEntries|
      ensures selectedFiles == [] ==> target == None && notice == Some(Warning("请先选择要发送的文件"))
      ensures selectedFiles != [] && selection.None? ==> target == None && notice == Some(Warning("请选择目标设备"))
      ensures selectedFiles != [] && selection.Some? ==>
                target == Some(TargetIpOf(deviceEntries[selection.value])) && notice == None
    {
      if selectedFiles == [] {
        return None, Some(Warning("请先选择要发送的文件"));
      }
      if selection.None? {
        return None, Some(Warning("请选择目标设备"));
      }
      target, notice := Some(TargetIpOf(deviceEntries[selection.value])), None;
    }
  }
}
