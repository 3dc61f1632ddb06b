/** The incremental network-info encoder (`src/net_info.c`, `net_info_wifi.c`, `net_info_cellular.c`):
    entries are appended one by one to the group of their kind; groups are opened and closed by the
    bits of a flag word. */
module NetInfo {
  import opened Basics
  import opened CborTokens

  datatype CellularType = LteCatM | NbIot

  /** One scan result or one cell. */
  datatype Entry =
    | Wifi(mac: seq<Byte>, rssi: int)
    | Cell(kind: CellularType, mcc: nat, mnc: nat, id: nat, strength: int)

  datatype Kind = WifiKind | CellKind

  function KindOf(e: Entry): Kind {
    if e.Wifi? then WifiKind else CellKind
  }

  /** GOLIOTH_NET_INFO_FLAG_WIFI and GOLIOTH_NET_INFO_FLAG_CELLULAR. */
  function Flag(k: Kind): bv32 {
    if k.WifiKind? then 1 else 2
  }

  function Name(k: Kind): string {
    if k.WifiKind? then "wifi" else "cell"
  }

  function HexDigit(n: nat): char
    requires n < 16
  {
    "0123456789abcdef"[n]
  }

  /** The format "%02x:%02x:...". */
  function MacText(mac: seq<Byte>): string {
    if mac == [] then ""
    else
      var first := [HexDigit(mac[0] / 16), HexDigit(mac[0] % 16)];
      if |mac| == 1 then first else first + ":" + MacText(mac[1..])
  }

  predicate IsHexDigit(d: char) {
    '0' <= d <= '9' || 'a' <= d <= 'f'
  }

  function HexValue(d: char): (n: nat)
    ensures n < 16
  {
    if '0' <= d <= '9' then (d - '0') as nat else if 'a' <= d <= 'f' then (d - 'a') as nat + 10 else 0
  }

  /** The text of a MAC address, by position: two lower-case hexadecimal digits for each byte, with colons
      in between. */
  lemma {:induction false} MacTextByPosition(mac: seq<Byte>, i: nat)
    requires i < |mac|
    ensures var text := MacText(mac);
            && |text| == 3 * |mac| - 1
            && IsHexDigit(text[3 * i]) && IsHexDigit(text[3 * i + 1])
            && 16 * HexValue(text[3 * i]) + HexValue(text[3 * i + 1]) == mac[i]
            && (i + 1 < |mac| ==> text[3 * i + 2] == ':')
    decreases |mac|
  {
    HexDigits(mac[0]);
    if i > 0 {
      MacTextByPosition(mac[1..], i - 1);
    } else if |mac| > 1 {
      MacTextByPosition(mac[1..], 0);
    }
  }

  lemma HexDigits(b: Byte)
    ensures var high, low := HexDigit(b / 16), HexDigit(b % 16);
            && IsHexDigit(high) && IsHexDigit(low)
            && 16 * HexValue(high) + HexValue(low) == b
  {
    HexDigitValue(b / 16);
    HexDigitValue(b % 16);
  }

  lemma HexDigitValue(n: nat)
    requires n < 16
    ensures IsHexDigit(HexDigit(n))
    ensures HexValue(HexDigit(n)) == n
  {
    var digits := "0123456789abcdef";
    assert digits[n] == if n < 10 then '0' + n as char else 'a' + (n - 10) as char;
  }

  function TypeText(t: CellularType): string {
    if t.LteCatM? then "ltecatm" else "nbiot"
  }

  /** The map that stands for one entry; a cell's strength of 0 is not reported. */
  function EntryValue(e: Entry): Value {
    match e
    case Wifi(mac, rssi) => VMap([Pair("mac", VText(MacText(mac))), Pair("rss", VNumber(rssi))])
    case Cell(kind, mcc, mnc, id, strength) =>
      VMap([Pair("type", VText(TypeText(kind))), Pair("mcc", VNumber(mcc)),
            Pair("mnc", VNumber(mnc)), Pair("id", VNumber(id))]
           + if strength != 0 then [Pair("strength", VNumber(strength))] else [])
  }

  /** `struct golioth_net_info`: the flag word and the tokens encoded so far. */
  datatype Info = Info(flags: bv32, buf: seq<Token>)

  function Started(flags: bv32): bv32 {
    flags & 0xFFFF
  }

  function Finished(flags: bv32): bv32 {
    flags >> 16
  }

  predicate HasFlag(word: bv32, flag: bv32) {
    word & flag != 0
  }

  /** All started groups are marked finished, and the new one started. */
  function Opened(flags: bv32, flag: bv32): bv32 {
    flags | (Started(flags) << 16) | flag
  }

  /** `golioth_net_info_append`. */
  function AppendGroup(info: Info, flag: bv32, name: string): (Status, Info) {
    var buf := if info.flags == 0 then [MapStart] else info.buf;
    if HasFlag(Finished(info.flags), flag) then (NOT_ALLOWED, info.(buf := buf))
    else if HasFlag(Started(info.flags), flag) then (OK, info.(buf := buf))
    else
      (OK, Info(Opened(info.flags, flag),
                buf + (if Started(info.flags) != 0 then [ListEnd] else []) + [Text(name), ListStart]))
  }

  /** `golioth_net_info_wifi_append` and `golioth_net_info_cellular_append`. */
  function AppendEntry(info: Info, e: Entry): (Status, Info) {
    var (status, begun) := AppendGroup(info, Flag(KindOf(e)), Name(KindOf(e)));
    if !status.OK? then (status, begun)
    else (OK, begun.(buf := begun.buf + Serialize(EntryValue(e))))
  }

  /** `golioth_net_info_finish`. */
  function Finish(info: Info): (Status, Info) {
    if info.flags == 0 then (NULL, info) else (OK, Info(0, info.buf + [ListEnd, MapEnd]))
  }

  // ------------------------------------------------------------ what the encoding should be

  datatype Group = Group(kind: Kind, entries: seq<Entry>)

  /** The document the appends build up: an entry joins the group opened last if that has its kind,
      opens a group if there is none of its kind, and is dropped otherwise. */
  function Put(groups: seq<Group>, e: Entry): seq<Group> {
    if Accepts(groups, e) then
      if groups != [] && groups[|groups| - 1].kind == KindOf(e) then
        var last := groups[|groups| - 1];
        groups[..|groups| - 1] + [last.(entries := last.entries + [e])]
      else groups + [Group(KindOf(e), [e])]
    else groups
  }

  predicate Accepts(groups: seq<Group>, e: Entry) {
    || (groups != [] && groups[|groups| - 1].kind == KindOf(e))
    || forall i :: 0 <= i < |groups| ==> groups[i].kind != KindOf(e)
  }

  function Groups(entries: seq<Entry>): seq<Group> {
    if entries == [] then []
    else Put(Groups(entries[..|entries| - 1]), entries[|entries| - 1])
  }

  function EntryValues(entries: seq<Entry>): (vs: seq<Value>)
    ensures |vs| == |entries|
  {
    if entries == [] then []
    else EntryValues(entries[..|entries| - 1]) + [EntryValue(entries[|entries| - 1])]
  }

  function GroupPair(g: Group): Pair {
    Pair(Name(g.kind), VList(EntryValues(g.entries)))
  }

  function GroupPairs(groups: seq<Group>): seq<Pair> {
    if groups == [] then []
    else GroupPairs(groups[..|groups| - 1]) + [GroupPair(groups[|groups| - 1])]
  }

  function Document(groups: seq<Group>): Value {
    VMap(GroupPairs(groups))
  }

  /** The tokens of a document whose last group and whose map are still open. */
  function OpenTokens(groups: seq<Group>): seq<Token>
    requires groups != []
  {
    var last := groups[|groups| - 1];
    [MapStart] + SerializePairs(GroupPairs(groups[..|groups| - 1]))
    + [Text(Name(last.kind)), ListStart] + SerializeItems(EntryValues(last.entries))
  }

  /** The flag word: the kinds of all groups started, and of all but the last finished. */
  ghost predicate FlagsOk(flags: bv32, groups: seq<Group>) {
    if groups == [] then flags == 0
    else if |groups| == 1 then flags == Flag(groups[0].kind)
    else |groups| == 2 && groups[0].kind != groups[1].kind && flags == 3 | (Flag(groups[0].kind) << 16)
  }

  ghost predicate Represents(info: Info, groups: seq<Group>) {
    && FlagsOk(info.flags, groups)
    && (groups != [] ==> info.buf == OpenTokens(groups))
  }

  /** What the flag word decides. */
  lemma FlagsDecide(flags: bv32, groups: seq<Group>, k: Kind)
    requires FlagsOk(flags, groups)
    ensures groups == [] <==> flags == 0
    ensures HasFlag(Finished(flags), Flag(k)) <==> |groups| == 2 && groups[0].kind == k
    ensures HasFlag(Started(flags), Flag(k)) <==> exists i :: 0 <= i < |groups| && groups[i].kind == k
    ensures Started(flags) != 0 <==> groups != []
    ensures |groups| == 1 && groups[0].kind != k ==> Opened(flags, Flag(k)) == 3 | (Flag(groups[0].kind) << 16)
    ensures groups == [] ==> Opened(flags, Flag(k)) == Flag(k)
  {
    if |groups| == 2 {
      assert groups[0].kind == k || groups[1].kind == k;
    } else if |groups| == 1 {
      assert groups[0].kind == k ==> exists i :: 0 <= i < |groups| && groups[i].kind == k;
    }
  }

  /** Opening a group closes the one before it. */
  lemma OpenGroup(groups: seq<Group>, k: Kind)
    ensures OpenTokens(groups + [Group(k, [])])
            == (if groups == [] then [MapStart] else OpenTokens(groups) + [ListEnd]) + [Text(Name(k)), ListStart]
  {
    var g := Group(k, []);
    assert (groups + [g])[..|groups|] == groups;
    if groups != [] {
      var last := groups[|groups| - 1];
      var pairs := GroupPairs(groups[..|groups| - 1]);
      PairsSnoc(pairs, GroupPair(last));
      Regroup(SerializePairs(pairs), Text(Name(last.kind)), SerializeItems(EntryValues(last.entries)));
      assert SerializePairs(GroupPairs(groups))
          == SerializePairs(pairs) + [Text(Name(last.kind))] + ([ListStart] + SerializeItems(EntryValues(last.entries)) + [ListEnd]);
    }
  }

  lemma Regroup(pairs: seq<Token>, key: Token, items: seq<Token>)
    ensures [MapStart] + (pairs + [key] + ([ListStart] + items + [ListEnd]))
            == [MapStart] + pairs + [key, ListStart] + items + [ListEnd]
  {
  }

  lemma ExtendGroup(groups: seq<Group>, e: Entry)
    requires groups != []
    ensures var last := groups[|groups| - 1];
            OpenTokens(groups[..|groups| - 1] + [last.(entries := last.entries + [e])])
            == OpenTokens(groups) + Serialize(EntryValue(e))
  {
    var last := groups[|groups| - 1];
    var more := last.(entries := last.entries + [e]);
    var after := groups[..|groups| - 1] + [more];
    assert after[..|after| - 1] == groups[..|groups| - 1];
    assert (last.entries + [e])[..|last.entries|] == last.entries;
    ItemsSnoc(EntryValues(last.entries), EntryValue(e));
  }

  lemma AppendToOpenGroup(info: Info, groups: seq<Group>, e: Entry)
    requires Represents(info, groups) && groups != [] && groups[|groups| - 1].kind == KindOf(e)
    ensures AppendEntry(info, e).0.OK? && Represents(AppendEntry(info, e).1, Put(groups, e))
  {
    FlagsDecide(info.flags, groups, KindOf(e));
    ExtendGroup(groups, e);
  }

  /** The tokens of a document with a new group of one entry. */
  lemma OpenTokensOfNewGroup(groups: seq<Group>, e: Entry)
    ensures OpenTokens(groups + [Group(KindOf(e), [e])])
            == (if groups == [] then [MapStart] else OpenTokens(groups) + [ListEnd])
               + [Text(Name(KindOf(e))), ListStart] + Serialize(EntryValue(e))
  {
    var begun := groups + [Group(KindOf(e), [])];
    OpenGroup(groups, KindOf(e));
    ExtendGroup(begun, e);
    assert begun[..|groups|] == groups && [] + [e] == [e];
  }

  lemma AppendToNewGroup(info: Info, groups: seq<Group>, e: Entry)
    requires Represents(info, groups) && forall i :: 0 <= i < |groups| ==> groups[i].kind != KindOf(e)
    ensures AppendEntry(info, e).0.OK? && Represents(AppendEntry(info, e).1, Put(groups, e))
  {
    FlagsDecide(info.flags, groups, KindOf(e));
    TwoKinds(groups, KindOf(e), info.flags);
    OpenTokensOfNewGroup(groups, e);
  }

  /** One append: an entry is accepted exactly when the document accepts it, a refused one emits
      nothing. */
  lemma AppendKeepsForm(info: Info, groups: seq<Group>, e: Entry)
    requires Represents(info, groups)
    ensures var (status, after) := AppendEntry(info, e);
            && Represents(after, Put(groups, e))
            && (status.OK? <==> Accepts(groups, e))
            && (!status.OK? ==> status.NOT_ALLOWED? && after == info)
  {
    if groups != [] && groups[|groups| - 1].kind == KindOf(e) {
      AppendToOpenGroup(info, groups, e);
    } else if Accepts(groups, e) {
      AppendToNewGroup(info, groups, e);
    } else {
      FlagsDecide(info.flags, groups, KindOf(e));
    }
  }

  lemma TwoKinds(groups: seq<Group>, k: Kind, flags: bv32)
    requires FlagsOk(flags, groups) && forall i :: 0 <= i < |groups| ==> groups[i].kind != k
    ensures |groups| < 2
  {
  }

  /** A run of appends from a fresh or finished encoder, with the status of each. */
  function AppendAll(info: Info, entries: seq<Entry>): (seq<Status>, Info) {
    if entries == [] then ([], info)
    else
      var (before, mid) := AppendAll(info, entries[..|entries| - 1]);
      var (status, after) := AppendEntry(mid, entries[|entries| - 1]);
      (before + [status], after)
  }

  /** The i-th append succeeded exactly if the document before it accepts its entry. */
  ghost predicate StatusOk(status: Status, before: seq<Entry>, e: Entry) {
    status.OK? <==> Accepts(Groups(before), e)
  }

  ghost predicate StatusesOk(statuses: seq<Status>, entries: seq<Entry>) {
    |statuses| == |entries| && forall i :: 0 <= i < |entries| ==> StatusOk(statuses[i], entries[..i], entries[i])
  }

  lemma StatusesSnoc(statuses: seq<Status>, status: Status, front: seq<Entry>, e: Entry)
    requires StatusesOk(statuses, front) && StatusOk(status, front, e)
    ensures StatusesOk(statuses + [status], front + [e])
  {
    forall i | 0 <= i <= |front|
      ensures StatusOk((statuses + [status])[i], (front + [e])[..i], (front + [e])[i])
    {
      assert (front + [e])[..i] == front[..i];
      assert front[..|front|] == front;
    }
  }

  lemma AppendAllSnoc(info: Info, front: seq<Entry>, e: Entry)
    ensures var (before, mid) := AppendAll(info, front);
            var (status, after) := AppendEntry(mid, e);
            AppendAll(info, front + [e]) == (before + [status], after)
  {
    assert (front + [e])[..|front|] == front;
  }

  lemma GroupsSnoc(front: seq<Entry>, e: Entry)
    ensures Groups(front + [e]) == Put(Groups(front), e)
  {
    assert (front + [e])[..|front|] == front;
  }

  /** What a run of appends has led to. */
  ghost predicate RunForm(run: (seq<Status>, Info), entries: seq<Entry>) {
    Represents(run.1, Groups(entries)) && StatusesOk(run.0, entries)
  }

  lemma RunFormSnoc(run: (seq<Status>, Info), front: seq<Entry>, e: Entry)
    requires RunForm(run, front)
    ensures var (status, after) := AppendEntry(run.1, e);
            RunForm((run.0 + [status], after), front + [e])
  {
    AppendKeepsForm(run.1, Groups(front), e);
    GroupsSnoc(front, e);
    StatusesSnoc(run.0, AppendEntry(run.1, e).0, front, e);
  }

  lemma {:induction false} AppendAllForm(info: Info, entries: seq<Entry>)
    requires info.flags == 0
    ensures var (statuses, after) := AppendAll(info, entries);
            Represents(after, Groups(entries)) && StatusesOk(statuses, entries)
  {
    if entries != [] {
      var front, e := entries[..|entries| - 1], entries[|entries| - 1];
      AppendAllForm(info, front);
      RunFormSnoc(AppendAll(info, front), front, e);
      AppendAllSnoc(info, front, e);
      assert front + [e] == entries;
    }
  }

  /** Closing the open group and the map completes the document. */
  lemma CloseDocument(groups: seq<Group>)
    requires groups != []
    ensures OpenTokens(groups) + [ListEnd, MapEnd] == Serialize(Document(groups))
  {
    var last := groups[|groups| - 1];
    PairsSnoc(GroupPairs(groups[..|groups| - 1]), GroupPair(last));
  }

  /** For any sequence of appends followed by finish, the tokens parse as one map and nothing else:
      the document of the accepted entries. */
  lemma FinishedDocument(info: Info, entries: seq<Entry>)
    requires info.flags == 0 && entries != []
    ensures var (status, done) := Finish(AppendAll(info, entries).1);
            && status.OK? && done.flags == 0
            && Parse(done.buf) == Some((Document(Groups(entries)), []))
  {
    AppendAllForm(info, entries);
    var groups := Groups(entries);
    var open := AppendAll(info, entries).1;
    GroupsNotEmpty(entries);
    assert open.flags != 0 by { FlagsDecide(open.flags, groups, WifiKind); }
    CloseDocument(groups);
    RoundTrip(Document(groups), []);
    assert Finish(open).1.buf == Serialize(Document(groups)) + [];
  }

  lemma {:induction false} GroupsNotEmpty(entries: seq<Entry>)
    requires entries != []
    ensures Groups(entries) != []
  {
  }

  // ------------------------------------------------------------ the document, read directly

  /** The kinds in the order of their first use. */
  function FirstUses(entries: seq<Entry>): seq<Kind> {
    if entries == [] then []
    else
      var before := FirstUses(entries[..|entries| - 1]);
      var k := KindOf(entries[|entries| - 1]);
      if k in before then before else before + [k]
  }

  /** The accepted entries of kind k, in order: those appended while k was the kind used last for the
      first time. */
  function AcceptedOf(entries: seq<Entry>, k: Kind): seq<Entry> {
    if entries == [] then []
    else
      var e := entries[|entries| - 1];
      var uses := FirstUses(entries);
      AcceptedOf(entries[..|entries| - 1], k)
      + if KindOf(e) == k && uses != [] && uses[|uses| - 1] == k then [e] else []
  }

  lemma {:induction false} NoneBeforeFirstUse(entries: seq<Entry>, k: Kind)
    requires k !in FirstUses(entries)
    ensures AcceptedOf(entries, k) == []
  {
    if entries != [] {
      NoneBeforeFirstUse(entries[..|entries| - 1], k);
    }
  }

  /** The groups appear in first-use order, each kind once, each holding exactly its accepted entries
      in order. */
  ghost predicate InFirstUseOrder(groups: seq<Group>, entries: seq<Entry>) {
    && |groups| == |FirstUses(entries)|
    && (forall i :: 0 <= i < |groups| ==> groups[i].kind == FirstUses(entries)[i])
    && (forall i :: 0 <= i < |groups| ==> groups[i].entries == AcceptedOf(entries, groups[i].kind))
    && (forall i, j :: 0 <= i < j < |groups| ==> groups[i].kind != groups[j].kind)
  }

  lemma FirstUsesSnoc(front: seq<Entry>, e: Entry)
    ensures FirstUses(front + [e])
            == if KindOf(e) in FirstUses(front) then FirstUses(front) else FirstUses(front) + [KindOf(e)]
  {
    assert (front + [e])[..|front|] == front;
  }

  lemma AcceptedSnoc(front: seq<Entry>, e: Entry, k: Kind)
    ensures var uses := FirstUses(front + [e]);
            && uses != []
            && AcceptedOf(front + [e], k)
               == if KindOf(e) == k && uses[|uses| - 1] == k then AcceptedOf(front, k) + [e]
                  else AcceptedOf(front, k)
  {
    FirstUsesSnoc(front, e);
    assert (front + [e])[..|front|] == front;
  }

  lemma PutOldKind(groups: seq<Group>, front: seq<Entry>, e: Entry)
    requires InFirstUseOrder(groups, front) && KindOf(e) in FirstUses(front)
    ensures InFirstUseOrder(Put(groups, e), front + [e])
  {
    var k := KindOf(e);
    var after := Put(groups, e);
    FirstUsesSnoc(front, e);
    var i :| 0 <= i < |FirstUses(front)| && FirstUses(front)[i] == k;
    assert groups[i].kind == k;
    assert |after| == |groups|;
    forall j | 0 <= j < |after|
      ensures after[j].kind == groups[j].kind && after[j].entries == AcceptedOf(front + [e], after[j].kind)
    {
      AcceptedSnoc(front, e, groups[j].kind);
    }
  }

  /** The first entry of a kind. */
  lemma FirstOfKind(front: seq<Entry>, e: Entry, other: Kind)
    requires KindOf(e) !in FirstUses(front)
    ensures FirstUses(front + [e]) == FirstUses(front) + [KindOf(e)]
    ensures AcceptedOf(front + [e], KindOf(e)) == [e]
    ensures other != KindOf(e) ==> AcceptedOf(front + [e], other) == AcceptedOf(front, other)
  {
    FirstUsesSnoc(front, e);
    AcceptedSnoc(front, e, KindOf(e));
    AcceptedSnoc(front, e, other);
    NoneBeforeFirstUse(front, KindOf(e));
  }

  lemma PutOpensGroup(groups: seq<Group>, front: seq<Entry>, e: Entry)
    requires InFirstUseOrder(groups, front) && KindOf(e) !in FirstUses(front)
    ensures Put(groups, e) == groups + [Group(KindOf(e), [e])]
    ensures forall j :: 0 <= j < |groups| ==> groups[j].kind != KindOf(e)
  {
    assert forall j :: 0 <= j < |groups| ==> groups[j].kind in FirstUses(front);
  }

  lemma PutNewKind(groups: seq<Group>, front: seq<Entry>, e: Entry)
    requires InFirstUseOrder(groups, front) && KindOf(e) !in FirstUses(front)
    ensures InFirstUseOrder(Put(groups, e), front + [e])
  {
    var after := groups + [Group(KindOf(e), [e])];
    PutOpensGroup(groups, front, e);
    FirstOfKind(front, e, KindOf(e));
    forall j | 0 <= j < |after| ensures after[j].entries == AcceptedOf(front + [e], after[j].kind) {
      FirstOfKind(front, e, after[j].kind);
    }
  }

  lemma {:induction false} GroupsInFirstUseOrder(entries: seq<Entry>)
    ensures InFirstUseOrder(Groups(entries), entries)
  {
    if entries != [] {
      var front := entries[..|entries| - 1];
      GroupsInFirstUseOrder(front);
      var e := entries[|entries| - 1];
      if KindOf(e) in FirstUses(front) {
        PutOldKind(Groups(front), front, e);
      } else {
        PutNewKind(Groups(front), front, e);
      }
      assert front + [e] == entries;
    }
  }

  // ------------------------------------------------------------ the encoder as it is

  class Encoder {
    var flags: bv32
    var buf: seq<Token>

    function View(): Info
      reads this
    {
      Info(flags, buf)
    }

    constructor ()
      ensures flags == 0
    {
      flags, buf := 0, [];
    }

    method Append(flag: bv32, name: string) returns (status: Status)
      modifies this
      ensures (status, View()) == AppendGroup(old(View()), flag, name)
    {
      if flags == 0 {
        buf := [MapStart];
      }
      var started := Started(flags);
      var finished := Finished(flags);
      if HasFlag(finished, flag) {
        return NOT_ALLOWED;
      }
      if HasFlag(started, flag) {
        return OK;
      }
      ghost var before := buf;
      if started != 0 {
        buf := buf + [ListEnd];
      }
      flags := Opened(flags, flag);
      buf := buf + [Text(name)];
      buf := buf + [ListStart];
      assert buf == before + (if started != 0 then [ListEnd] else []) + [Text(name), ListStart];
      return OK;
    }

    method WifiAppend(mac: seq<Byte>, rssi: int) returns (status: Status)
      modifies this
      ensures (status, View()) == AppendEntry(old(View()), Wifi(mac, rssi))
    {
      status := Append(Flag(WifiKind), "wifi");
      if !status.OK? {
        return;
      }
      ghost var begun := buf;
      buf := buf + [MapStart];
      buf := buf + [Text("mac")];
      buf := buf + [Text(MacText(mac))];
      buf := buf + [Text("rss"), Number(rssi)];
      buf := buf + [MapEnd];
      WifiTokens(mac, rssi);
      assert buf == begun + Serialize(EntryValue(Wifi(mac, rssi)));
    }

    method CellularAppend(kind: CellularType, mcc: nat, mnc: nat, id: nat, strength: int)
        returns (status: Status)
      modifies this
      ensures (status, View()) == AppendEntry(old(View()), Cell(kind, mcc, mnc, id, strength))
    {
      status := Append(Flag(CellKind), "cell");
      if !status.OK? {
        return;
      }
      ghost var begun := buf;
      buf := buf + [MapStart];
      buf := buf + [Text("type"), Text(TypeText(kind)), Text("mcc"), Number(mcc),
                    Text("mnc"), Number(mnc), Text("id"), Number(id)];
      if strength != 0 {
        buf := buf + [Text("strength"), Number(strength)];
      }
      buf := buf + [MapEnd];
      CellTokens(kind, mcc, mnc, id, strength);
      assert buf == begun + Serialize(EntryValue(Cell(kind, mcc, mnc, id, strength)));
    }

    method FinishInPlace() returns (status: Status)
      modifies this
      ensures (status, View()) == Finish(old(View()))
    {
      if flags == 0 {
        return NULL;
      }
      ghost var open := buf;
      buf := buf + [ListEnd];
      buf := buf + [MapEnd];
      assert buf == open + [ListEnd, MapEnd];
      flags := 0;
      return OK;
    }
  }

  /** The names of the groups and of the cellular types. */
  lemma Names()
    ensures Name(WifiKind) == "wifi" && Name(CellKind) == "cell"
    ensures TypeText(LteCatM) == "ltecatm" && TypeText(NbIot) == "nbiot"
  {
  }

  lemma WifiTokens(mac: seq<Byte>, rssi: int)
    ensures Serialize(EntryValue(Wifi(mac, rssi)))
            == [MapStart, Text("mac"), Text(MacText(mac)), Text("rss"), Number(rssi), MapEnd]
  {
    PairsSnoc([], Pair("mac", VText(MacText(mac))));
    PairsSnoc([Pair("mac", VText(MacText(mac)))], Pair("rss", VNumber(rssi)));
    assert [] + [Pair("mac", VText(MacText(mac)))] == [Pair("mac", VText(MacText(mac)))];
    assert [Pair("mac", VText(MacText(mac)))] + [Pair("rss", VNumber(rssi))]
        == [Pair("mac", VText(MacText(mac))), Pair("rss", VNumber(rssi))];
  }

  /** The pairs of a map of leaves, one token each. */
  lemma LeafPairs(entries: seq<Pair>, key: string, v: Value, token: Token)
    requires Serialize(v) == [token]
    ensures SerializePairs(entries + [Pair(key, v)]) == SerializePairs(entries) + [Text(key), token]
  {
    PairsSnoc(entries, Pair(key, v));
  }

  /** The four pairs every cell has. */
  lemma CellPairs(kind: CellularType, mcc: nat, mnc: nat, id: nat)
    ensures SerializePairs([Pair("type", VText(TypeText(kind))), Pair("mcc", VNumber(mcc)),
                            Pair("mnc", VNumber(mnc)), Pair("id", VNumber(id))])
            == [Text("type"), Text(TypeText(kind)), Text("mcc"), Number(mcc),
                Text("mnc"), Number(mnc), Text("id"), Number(id)]
  {
    var p0: seq<Pair> := [];
    var p1 := p0 + [Pair("type", VText(TypeText(kind)))];
    var p2 := p1 + [Pair("mcc", VNumber(mcc))];
    var p3 := p2 + [Pair("mnc", VNumber(mnc))];
    LeafPairs(p0, "type", VText(TypeText(kind)), Text(TypeText(kind)));
    LeafPairs(p1, "mcc", VNumber(mcc), Number(mcc));
    LeafPairs(p2, "mnc", VNumber(mnc), Number(mnc));
    LeafPairs(p3, "id", VNumber(id), Number(id));
    assert p3 + [Pair("id", VNumber(id))]
        == [Pair("type", VText(TypeText(kind))), Pair("mcc", VNumber(mcc)), Pair("mnc", VNumber(mnc)), Pair("id", VNumber(id))];
  }

  lemma CellTokens(kind: CellularType, mcc: nat, mnc: nat, id: nat, strength: int)
    ensures Serialize(EntryValue(Cell(kind, mcc, mnc, id, strength)))
            == [MapStart, Text("type"), Text(TypeText(kind)), Text("mcc"), Number(mcc),
                Text("mnc"), Number(mnc), Text("id"), Number(id)]
               + (if strength != 0 then [Text("strength"), Number(strength)] else []) + [MapEnd]
  {
    CellPairs(kind, mcc, mnc, id);
    var four := [Pair("type", VText(TypeText(kind))), Pair("mcc", VNumber(mcc)),
                 Pair("mnc", VNumber(mnc)), Pair("id", VNumber(id))];
    LeafPairs(four, "strength", VNumber(strength), Number(strength));
    var more := if strength != 0 then [Pair("strength", VNumber(strength))] else [];
    var tokens := if strength != 0 then [Text("strength"), Number(strength)] else [];
    assert four + [] == four;
    assert EntryValue(Cell(kind, mcc, mnc, id, strength)) == VMap(four + more);
    assert SerializePairs(four + more) == SerializePairs(four) + tokens;
  }
}
