/** The reply texts the bot sends, and the list renderings built with
    `forEach((item, index) => message += ...)` and `filter`. */
module Replies {
  import opened Wrappers
  import opened Text
  import opened Format
  import opened Device

  // ---------------------------------------------------------------------------
  // Fixed replies
  // ---------------------------------------------------------------------------

  const HelpText: string :=
    "Selamat Datang di Mostech Bot\n\n" +
    "Berikut adalah menu yang tersedia:\n" +
    "/connect: Untuk menghubungkan bot ke MikroTik.\n" +
    "/resource: Untuk mendapatkan informasi resource dari MikroTik setelah terkoneksi.\n" +
    "/status: Untuk memeriksa status koneksi MikroTik.\n" +
    "/interface_list: Untuk mendapatkan daftar interface MikroTik.\n" +
    "/interface_disable <nama interface>: Untuk mendisable interface.\n" +
    "/interface_enable <nama interface>: Untuk menenable interface.\n" +
    "/total_hotspot: Untuk melihat total user hotspot.\n" +
    "/hotspot_find <nama>: Untuk mencari user hotspot berdasarkan nama.\n" +
    "/total_pppoe: Untuk melihat total PPPoE aktif.\n" +
    "/netwatch_down: Untuk melihat netwatch dengan status down."

  const SavedText := "Koneksi MikroTik berhasil disimpan. Gunakan perintah lain untuk interaksi dengan MikroTik."
  const ConnectedText := "MikroTik terhubung."
  const DisconnectedText := "MikroTik tidak terhubung. Gunakan /connect untuk terhubung."
  const NotConnectedText := "MikroTik belum terhubung. Gunakan /connect untuk terhubung."
  const ResourceFailText := "Gagal mengambil data dari MikroTik. Periksa koneksi dan kredensial."
  const InterfaceFailText := "Gagal mengambil data interface."
  const HotspotFailText := "Gagal mengambil data hotspot."
  const PppoeFailText := "Gagal mengambil data PPPoE."
  const NetwatchFailText := "Gagal mengambil data Netwatch."
  const InterfaceHeader := "Interface List\n"
  const NetwatchHeader := "Netwatch Down Monitoring\n"
  const RunningGlyph := "\U{2705}"
  const StoppedGlyph := "\U{274C}"

  // ---------------------------------------------------------------------------
  // forEach with a 1-based counter, and filter
  // ---------------------------------------------------------------------------

  /** The lines `line(first, xs[0])`, `line(first + 1, xs[1])`, ... in order. */
  function Enumerate<T>(xs: seq<T>, line: (nat, T) -> string, first: nat): string
    decreases |xs|
  {
    if |xs| == 0 then "" else line(first, xs[0]) + Enumerate(xs[1..], line, first + 1)
  }

  /** Appending an element appends its line, numbered after all earlier ones. */
  lemma {:induction false} EnumerateSnoc<T>(xs: seq<T>, x: T, line: (nat, T) -> string, first: nat)
    ensures Enumerate(xs + [x], line, first) == Enumerate(xs, line, first) + line(first + |xs|, x)
    decreases |xs|
  {
    if |xs| > 0 {
      assert (xs + [x])[1..] == xs[1..] + [x];
      EnumerateSnoc(xs[1..], x, line, first + 1);
    } else {
      assert [x][1..] == [];
    }
  }

  /** Entry `i` sits after the entries before it and before the ones after
      it, and carries the number `first + i`. */
  lemma {:induction false} EnumerateAt<T>(xs: seq<T>, line: (nat, T) -> string, first: nat, i: nat)
    requires i < |xs|
    ensures Enumerate(xs, line, first)
         == Enumerate(xs[..i], line, first) + line(first + i, xs[i]) + Enumerate(xs[i + 1..], line, first + i + 1)
    decreases i
  {
    if i > 0 {
      EnumerateAt(xs[1..], line, first + 1, i - 1);
      assert xs[1..][..i - 1] == xs[1..i];
      assert xs[1..][i - 1] == xs[i];
      assert xs[1..][i..] == xs[i + 1..];
      assert xs[..i][1..] == xs[1..i];
      assert xs[..i][0] == xs[0];
    } else {
      assert xs[1..] == xs[i + 1..];
    }
  }

  /** `xs.forEach((x, index) => message += line(index + 1, x))` run as the
      loop it is; it appends exactly the 1-based enumeration. */
  method ForEachAppend<T>(message: string, xs: seq<T>, line: (nat, T) -> string) returns (r: string)
    ensures r == message + Enumerate(xs, line, 1)
  {
    r := message;
    var index := 0;
    while index < |xs|
      invariant 0 <= index <= |xs|
      invariant r == message + Enumerate(xs[..index], line, 1)
    {
      EnumerateSnoc(xs[..index], xs[index], line, 1);
      assert xs[..index] + [xs[index]] == xs[..index + 1];
      r := r + line(index + 1, xs[index]);
      index := index + 1;
    }
    assert xs[..index] == xs;
  }

  /** `xs.filter(keep)`: the kept elements, in their original order. */
  function Filter<T(!new)>(xs: seq<T>, keep: T -> bool): (r: seq<T>)
    ensures |r| <= |xs|
    ensures forall i :: 0 <= i < |r| ==> keep(r[i])
    ensures forall x :: x in r <==> x in xs && keep(x)
    decreases |xs|
  {
    if |xs| == 0 then []
    else
      var rest := Filter(xs[1..], keep);
      assert forall x :: x in xs <==> x == xs[0] || x in xs[1..];
      if keep(xs[0]) then [xs[0]] + rest else rest
  }

  /** Filtering a concatenation filters each part, so the order of the kept
      elements is the order of the input. */
  lemma {:induction false} FilterAppend<T(!new)>(a: seq<T>, b: seq<T>, keep: T -> bool)
    ensures Filter(a + b, keep) == Filter(a, keep) + Filter(b, keep)
    decreases |a|
  {
    if |a| > 0 {
      assert (a + b)[1..] == a[1..] + b;
      FilterAppend(a[1..], b, keep);
    } else {
      assert a + b == b;
    }
  }

  /** Keeping no element leaves nothing. */
  lemma {:induction false} FilterKeepsNone<T(!new)>(xs: seq<T>, keep: T -> bool)
    requires forall i :: 0 <= i < |xs| ==> !keep(xs[i])
    ensures Filter(xs, keep) == []
    decreases |xs|
  {
    if |xs| > 0 {
      FilterKeepsNone(xs[1..], keep);
    }
  }

  /** Keeping every element keeps the sequence as it is. */
  lemma {:induction false} FilterKeepsAll<T(!new)>(xs: seq<T>, keep: T -> bool)
    requires forall i :: 0 <= i < |xs| ==> keep(xs[i])
    ensures Filter(xs, keep) == xs
    decreases |xs|
  {
    if |xs| > 0 {
      FilterKeepsAll(xs[1..], keep);
    }
  }

  // ---------------------------------------------------------------------------
  // /interface_list and /netwatch_down
  // ---------------------------------------------------------------------------

  /** The status glyph: a check mark only when `running` is the string "true",
      a cross otherwise. */
  function Glyph(r: Record): (g: string)
    ensures g == RunningGlyph || g == StoppedGlyph
    ensures g == RunningGlyph <==> FieldIs(r, "running", "true")
  {
    if FieldIs(r, "running", "true") then RunningGlyph else StoppedGlyph
  }

  function InterfaceLine(n: nat, r: Record): string {
    NatToDecimal(n) + ". Nama: " + Show(r, "name") + " - Type: " + Show(r, "type")
      + " - Status: " + Glyph(r) + "\n"
  }

  function InterfaceListText(xs: seq<Record>): string {
    InterfaceHeader + Enumerate(xs, InterfaceLine, 1)
  }

  predicate IsDown(r: Record) {
    FieldIs(r, "status", "down")
  }

  function NetwatchLine(n: nat, r: Record): string {
    NatToDecimal(n) + ". Nama: " + Show(r, "comment") + " - IP: " + Show(r, "host")
      + " - Waktu: " + Show(r, "since") + "\n"
  }

  /** Only entries whose status is "down", numbered after filtering. */
  function NetwatchText(xs: seq<Record>): string {
    NetwatchHeader + Enumerate(Filter(xs, IsDown), NetwatchLine, 1)
  }

  // ---------------------------------------------------------------------------
  // /total_hotspot, /total_pppoe
  // ---------------------------------------------------------------------------

  function TotalHotspotText(users: Json, active: Json, hosts: Json): string {
    "Total User\n" +
    "User Hotspot: " + LengthText(users) + "\n" +
    "User Hotspot Aktif: " + LengthText(active) + "\n" +
    "Host: " + LengthText(hosts)
  }

  function TotalPppoeText(sessions: Json): string {
    "Total PPPoE Aktif: " + LengthText(sessions)
  }

  // ---------------------------------------------------------------------------
  // /hotspot_find
  // ---------------------------------------------------------------------------

  /** `record[key].toLowerCase().includes(name)` for a record that has the field. */
  predicate NameMatches(r: Record, key: string, name: string) {
    key in r && Includes(Lower(r[key]), name)
  }

  /** Every record has the field; otherwise `undefined.toLowerCase()` throws. */
  predicate AllHave(xs: seq<Record>, key: string) {
    forall i :: 0 <= i < |xs| ==> key in xs[i]
  }

  function UserDetail(n: nat, u: Record): string {
    "Hotspot User Detail " + NatToDecimal(n) + ":\n" +
    "Nama: " + Show(u, "name") + "\n" +
    "Password: " + Show(u, "password") + "\n" +
    "Profile: " + Show(u, "profile") + "\n\n"
  }

  function ActiveDetail(n: nat, a: Record): string {
    "Hotspot Aktif Detail " + NatToDecimal(n) + ":\n" +
    "Nama: " + Show(a, "user") + "\n" +
    "IP: " + Show(a, "address") + "\n" +
    "MAC: " + Show(a, "mac-address") + "\n" +
    "Uptime: " + Show(a, "uptime") + "\n\n"
  }

  function NoActiveText(name: string): string {
    "Tidak ada user aktif yang sesuai dengan nama \"" + name + "\".\n"
  }

  function NotFoundText(name: string): string {
    "User dengan nama \"" + name + "\" tidak ditemukan."
  }

  function MatchingUsers(users: seq<Record>, name: string): seq<Record> {
    Filter(users, (u: Record) => NameMatches(u, "name", name))
  }

  function MatchingActive(active: seq<Record>, name: string): seq<Record> {
    Filter(active, (a: Record) => NameMatches(a, "user", name))
  }

  /** The message for users that matched: their details, then either the
      matching active sessions or the single "no active user" line. */
  function FoundText(matched: seq<Record>, matchedActive: seq<Record>, name: string): string {
    Enumerate(matched, UserDetail, 1)
      + (if |matchedActive| > 0 then Enumerate(matchedActive, ActiveDetail, 1) else NoActiveText(name))
  }

  // ---------------------------------------------------------------------------
  // /interface_disable, /interface_enable
  // ---------------------------------------------------------------------------

  function ToggleText(name: string, action: string, ok: bool): string {
    "Interface " + name + (if ok then " berhasil di " else " gagal di ") + action + "."
  }

  // ---------------------------------------------------------------------------
  // /resource
  // ---------------------------------------------------------------------------

  /** A numeric field converted with `toMiB`/`toGiB` when it is spelled in
      decimal digits (the empty string counts as 0, as `Number("")` does); a
      missing field divides `undefined` and gives `NaN`. */
  function BytesText(r: Record, key: string, convert: nat -> string): string {
    if key in r && AllDigits(r[key]) then convert(DecimalValue(r[key])) else "NaN"
  }

  /** The system-resource message, or `None` when building it throws: the
      body is an array, or has no `uptime`, so `formatUptime(undefined)` fails. */
  function ResourceText(j: Json): Option<string> {
    match j
    case Array(_) => None
    case Object(f) =>
      if "uptime" !in f then None
      else Some(
        "System Resource:\n" +
        "Board Name: " + Show(f, "board-name") + "\n" +
        "Uptime: " + FormatUptime(f["uptime"]) + "\n" +
        "CPU Load: " + Show(f, "cpu-load") + "%\n" +
        "Free Memory: " + BytesText(f, "free-memory", ToMiB) + " MiB\n" +
        "Free HDD Space: " + BytesText(f, "free-hdd-space", ToGiB) + " GiB\n" +
        "RouterOS: " + Show(f, "version"))
  }

  // ---------------------------------------------------------------------------
  // Messages by kind
  // ---------------------------------------------------------------------------

  /** A message the bot sends: its kind and the data it shows. */
  datatype Reply =
    | Menu
    | Saved
    | StatusNotice(connected: bool)
    | NotConnected
    | ResourceReport(info: Json)
    | ResourceFailed
    | Interfaces(interfaces: seq<Record>)
    | InterfacesFailed
    | Toggled(name: string, action: string, ok: bool)
    | HotspotTotals(users: Json, active: Json, hosts: Json)
    | HotspotFailed
    | Found(matched: seq<Record>, matchedActive: seq<Record>, token: string)
    | NotFound(token: string)
    | PppoeTotal(sessions: Json)
    | PppoeFailed
    | NetwatchList(entries: seq<Record>)
    | NetwatchFailed

  /** The exact text of a message. A resource report whose building throws
      is caught by the handler and replaced by the failure text. */
  function Render(r: Reply): string {
    match r
    case Menu => HelpText
    case Saved => SavedText
    case StatusNotice(connected) => if connected then ConnectedText else DisconnectedText
    case NotConnected => NotConnectedText
    case ResourceReport(j) => ResourceText(j).GetOr(ResourceFailText)
    case ResourceFailed => ResourceFailText
    case Interfaces(xs) => InterfaceListText(xs)
    case InterfacesFailed => InterfaceFailText
    case Toggled(name, action, ok) => ToggleText(name, action, ok)
    case HotspotTotals(u, a, h) => TotalHotspotText(u, a, h)
    case HotspotFailed => HotspotFailText
    case Found(matched, active, token) => FoundText(matched, active, token)
    case NotFound(token) => NotFoundText(token)
    case PppoeTotal(j) => TotalPppoeText(j)
    case PppoeFailed => PppoeFailText
    case NetwatchList(xs) => NetwatchText(xs)
    case NetwatchFailed => NetwatchFailText
  }

  lemma Regroup(h: string, a: string, b: string, c: string)
    ensures h + (a + b + c) == h + a + b + c
  {
  }

  /** The interface list: the header, then entry `i` numbered `i + 1` between
      the entries before and after it. */
  lemma InterfaceListRendering(xs: seq<Record>, i: nat)
    requires i < |xs|
    ensures InterfaceListText(xs)
         == InterfaceHeader + Enumerate(xs[..i], InterfaceLine, 1)
            + InterfaceLine(i + 1, xs[i]) + Enumerate(xs[i + 1..], InterfaceLine, i + 2)
  {
    EnumerateAt(xs, InterfaceLine, 1, i);
    Regroup(InterfaceHeader, Enumerate(xs[..i], InterfaceLine, 1), InterfaceLine(i + 1, xs[i]),
      Enumerate(xs[i + 1..], InterfaceLine, i + 2));
  }

  /** No interfaces: the list is the header alone. */
  lemma InterfaceListEmpty()
    ensures InterfaceListText([]) == InterfaceHeader
  {
  }

  /** Entries that are not down do not show in the netwatch list: it is the
      list of the down entries alone, in their original order. */
  lemma NetwatchIgnoresUp(xs: seq<Record>)
    ensures NetwatchText(Filter(xs, IsDown)) == NetwatchText(xs)
  {
    FilterKeepsAll(Filter(xs, IsDown), IsDown);
  }

  /** Numbering happens after filtering: the `k`-th down entry (counting from
      0) is line number `k + 1`, between the down entries before and after it. */
  lemma NetwatchNumbering(xs: seq<Record>, k: nat)
    requires k < |Filter(xs, IsDown)|
    ensures var down := Filter(xs, IsDown);
      NetwatchText(xs)
      == NetwatchHeader + Enumerate(down[..k], NetwatchLine, 1)
         + NetwatchLine(k + 1, down[k]) + Enumerate(down[k + 1..], NetwatchLine, k + 2)
  {
    var down := Filter(xs, IsDown);
    EnumerateAt(down, NetwatchLine, 1, k);
    Regroup(NetwatchHeader, Enumerate(down[..k], NetwatchLine, 1), NetwatchLine(k + 1, down[k]),
      Enumerate(down[k + 1..], NetwatchLine, k + 2));
  }

  /** With no entry down the netwatch list is the header alone. */
  lemma NetwatchNoneDown(xs: seq<Record>)
    requires forall i :: 0 <= i < |xs| ==> !FieldIs(xs[i], "status", "down")
    ensures NetwatchText(xs) == NetwatchHeader
  {
    FilterKeepsNone(xs, IsDown);
    assert NetwatchHeader + "" == NetwatchHeader;
  }

  /** Three users, one active session and five hosts. */
  lemma TotalHotspotExample(r: Record)
    ensures TotalHotspotText(Array([r, r, r]), Array([r]), Array([r, r, r, r, r]))
         == "Total User\n" + "User Hotspot: 3" + "\n" + "User Hotspot Aktif: 1" + "\n" + "Host: 5"
  {
    var u, a, h := Array([r, r, r]), Array([r]), Array([r, r, r, r, r]);
    SmallCounts(u, a, h);
    assert "User Hotspot: " + "3" == "User Hotspot: 3";
    assert "User Hotspot Aktif: " + "1" == "User Hotspot Aktif: 1";
    assert "Host: " + "5" == "Host: 5";
  }

  lemma SmallCounts(u: Json, a: Json, h: Json)
    requires u.Array? && |u.items| == 3
    requires a.Array? && |a.items| == 1
    requires h.Array? && |h.items| == 5
    ensures LengthText(u) == "3" && LengthText(a) == "1" && LengthText(h) == "5"
  {
    assert NatToDecimal(3) == "3";
  }

  /** A count taken from a plain object without a `length` field shows as
      "undefined". */
  lemma PppoeCountOfObject(f: Record)
    requires "length" !in f
    ensures TotalPppoeText(Object(f)) == "Total PPPoE Aktif: undefined"
  {
  }

  /** One matching user "bobby" and no matching active session: the user's
      block (number, name, password, profile) followed by the "no active
      user" line for the token. */
  lemma FoundExample(bobby: Record)
    requires bobby == map["name" := "bobby", "password" := "pw", "profile" := "default"]
    ensures FoundText([bobby], [], "bob")
         == ("Hotspot User Detail " + "1" + ":\n" + "Nama: " + "bobby" + "\n"
             + "Password: " + "pw" + "\n" + "Profile: " + "default" + "\n\n")
            + ("Tidak ada user aktif yang sesuai dengan nama \"" + "bob" + "\".\n")
  {
    assert NatToDecimal(1) == "1";
    assert Enumerate([bobby], UserDetail, 1) == UserDetail(1, bobby) + "";
  }

  /** A missing byte count shows as "NaN"; an empty one is converted as 0. */
  lemma BytesEdgeCases(f: Record, key: string, convert: nat -> string)
    ensures key !in f ==> BytesText(f, key, convert) == "NaN"
    ensures key in f && f[key] == "" ==> BytesText(f, key, convert) == convert(0)
  {
  }

  /** Building the resource message throws exactly when the body is not a
      single record or has no `uptime`; every other field may be missing and
      then shows as "undefined" (or "NaN" for the byte counts). */
  lemma ResourceNeedsUptime(j: Json)
    ensures ResourceText(j).None? <==> j.Array? || "uptime" !in j.fields
  {
  }

  /** A byte count spelled as the canonical decimal of `n` is converted by
      its value. */
  lemma BytesOfDecimal(f: Record, key: string, convert: nat -> string, n: nat)
    requires key in f && f[key] == NatToDecimal(n)
    ensures BytesText(f, key, convert) == convert(n)
  {
  }
}
