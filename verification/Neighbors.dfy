/** The neighbour table: MAC addresses in the switch's notation, and the map from hardware
    address to VLAN interface. */
module Neighbors {
  import opened Common
  import opened RouteLookup

  // ----- MAC text -----

  function DropDots(raw: string): string {
    if raw == [] then []
    else if raw[0] == '.' then DropDots(raw[1..])
    else [raw[0]] + DropDots(raw[1..])
  }

  /** The groups with dots between them. */
  function Dotted(groups: seq<string>): string {
    if groups == [] then ""
    else if |groups| == 1 then groups[0]
    else groups[0] + "." + Dotted(groups[1..])
  }

  function Joined(groups: seq<string>): string {
    if groups == [] then "" else groups[0] + Joined(groups[1..])
  }

  predicate DotFree(groups: seq<string>) {
    forall g :: g in groups ==> '.' !in g
  }

  lemma {:induction false} DropDotsAfter(head: string, tail: string)
    requires '.' !in head
    ensures DropDots(head + tail) == head + DropDots(tail)
  {
    if head == [] {
      assert head + tail == tail;
    } else {
      assert (head + tail)[1..] == head[1..] + tail;
      DropDotsAfter(head[1..], tail);
    }
  }

  /** Dropping the dots of any grouping joins the groups. */
  lemma {:induction false} DropDotsJoins(groups: seq<string>)
    requires DotFree(groups)
    ensures DropDots(Dotted(groups)) == Joined(groups)
  {
    if groups != [] {
      var rest := groups[1..];
      if rest == [] {
        DropDotsAfter(groups[0], "");
        assert groups[0] + "" == groups[0];
      } else {
        assert Dotted(groups) == groups[0] + ("." + Dotted(rest));
        DropDotsAfter(groups[0], "." + Dotted(rest));
        assert ("." + Dotted(rest))[1..] == Dotted(rest);
        DropDotsJoins(rest);
      }
    }
  }

  /** The groups of a text between its dots. */
  function Groups(raw: string): (groups: seq<string>)
    ensures groups != []
  {
    if raw == [] then [""]
    else
      var rest := Groups(raw[1..]);
      if raw[0] == '.' then [""] + rest else [[raw[0]] + rest[0]] + rest[1..]
  }

  lemma DottedFirst(c: char, groups: seq<string>)
    requires groups != []
    ensures Dotted([[c] + groups[0]] + groups[1..]) == [c] + Dotted(groups)
  {
    var more := [[c] + groups[0]] + groups[1..];
    assert more[0] == [c] + groups[0] && more[1..] == groups[1..];
    if |groups| > 1 {
      assert [c] + groups[0] + "." + Dotted(groups[1..]) == [c] + (groups[0] + "." + Dotted(groups[1..]));
    }
  }

  lemma DottedEmptyFirst(groups: seq<string>)
    requires groups != []
    ensures Dotted([""] + groups) == ['.'] + Dotted(groups)
  {
    assert ([""] + groups)[1..] == groups;
    assert "" + "." + Dotted(groups) == ['.'] + Dotted(groups);
  }

  /** Every text is some grouping. */
  lemma {:induction false} GroupsAreDotted(raw: string)
    ensures DotFree(Groups(raw)) && Dotted(Groups(raw)) == raw
  {
    if raw != [] {
      var rest := Groups(raw[1..]);
      GroupsAreDotted(raw[1..]);
      if raw[0] == '.' {
        DottedEmptyFirst(rest);
      } else {
        DottedFirst(raw[0], rest);
        assert forall g :: g in rest[1..] ==> g in rest;
      }
      assert raw == [raw[0]] + raw[1..];
    }
  }

  function ColonLength(n: nat): nat {
    if n == 0 then 0 else n + (n - 1) / 2
  }

  /** The characters of a text in order, with a colon at every third place. */
  function WithColons(s: string): (t: string)
    ensures |t| == ColonLength(|s|)
  {
    seq(ColonLength(|s|), k requires 0 <= k < ColonLength(|s|) => if k % 3 == 2 then ':' else s[k - k / 3])
  }

  /** One character more: a colon goes first if the text so far is some whole pairs. */
  lemma WithColonsStep(s: string, c: char)
    ensures WithColons(s + [c]) == WithColons(s) + (if |s| > 0 && |s| % 2 == 0 then [':', c] else [c])
  {
    var t, u := WithColons(s + [c]), WithColons(s);
    var n := |s|;
    forall k | 0 <= k < |u| ensures t[k] == u[k] {
      if k % 3 != 2 {
        assert k - k / 3 < n;
        assert (s + [c])[k - k / 3] == s[k - k / 3];
      }
    }
    var last := |t| - 1;
    assert last - last / 3 == n && last % 3 != 2;
    assert t[last] == c;
    if n > 0 && n % 2 == 0 {
      assert |t| == |u| + 2 && |u| % 3 == 2;
      assert t == t[..|u|] + [t[|u|], t[|u| + 1]];
    } else {
      assert |t| == |u| + 1;
      assert t == t[..|u|] + [t[|u|]];
    }
    assert t[..|u|] == u;
  }

  /** The conversion loop: dots are dropped, a colon is put between pairs. */
  method FromRawCiscoString(rawMac: string) returns (mac: string)
    ensures mac == WithColons(DropDots(rawMac))
  {
    mac := "";
    var cnt := 0;
    ghost var kept := "";
    for i := 0 to |rawMac|
      invariant cnt == |kept| && mac == WithColons(kept)
      invariant kept + DropDots(rawMac[i..]) == DropDots(rawMac)
    {
      if rawMac[i] == '.' {
        continue;
      }
      WithColonsStep(kept, rawMac[i]);
      if cnt > 0 && cnt % 2 == 0 {
        mac := mac + [':'];
      }
      mac := mac + [rawMac[i]];
      cnt := cnt + 1;
      kept := kept + [rawMac[i]];
    }
    assert kept + DropDots(rawMac[|rawMac|..]) == kept;
  }

  /** Where each character of the input ends up; the characters keep their order. */
  lemma ColonPositions(s: string, j: nat)
    requires j < |s|
    ensures var t := WithColons(s); j + j / 2 < |t| && (j + j / 2) % 3 != 2 && t[j + j / 2] == s[j]
  {
    var k := j + j / 2;
    assert k == 3 * (j / 2) + j % 2;
    assert k - k / 3 == j;
  }

  /** The colons stand exactly between consecutive pairs of characters. */
  lemma ColonsBetweenPairs(s: string, k: nat)
    requires ':' !in s && k < |WithColons(s)|
    ensures var t := WithColons(s); (t[k] == ':' <==> k % 3 == 2) && (k % 3 == 2 ==> k + 1 < |t|)
  {
    if k % 3 != 2 {
      assert k - k / 3 < |s|;
      assert s[k - k / 3] in s;
    }
  }

  lemma WithColonsInjective(s: string, t: string)
    ensures WithColons(s) == WithColons(t) <==> s == t
  {
    if WithColons(s) == WithColons(t) {
      assert |s| == |t|;
      forall j | 0 <= j < |s| ensures s[j] == t[j] {
        ColonPositions(s, j);
        ColonPositions(t, j);
      }
    }
  }

  /** Two inputs give the same output exactly when their groups join to the same text. */
  lemma SameMacText(raw1: string, raw2: string)
    ensures WithColons(DropDots(raw1)) == WithColons(DropDots(raw2)) <==> Joined(Groups(raw1)) == Joined(Groups(raw2))
  {
    GroupsAreDotted(raw1);
    GroupsAreDotted(raw2);
    DropDotsJoins(Groups(raw1));
    DropDotsJoins(Groups(raw2));
    WithColonsInjective(DropDots(raw1), DropDots(raw2));
  }

  function WithoutColons(s: string): string {
    if s == [] then [] else WithoutColons(s[..|s| - 1]) + if s[|s| - 1] == ':' then [] else [s[|s| - 1]]
  }

  lemma WithoutColonsStep(s: string, c: char)
    ensures WithoutColons(s + [c]) == WithoutColons(s) + if c == ':' then [] else [c]
  {
    assert (s + [c])[..|s|] == s;
  }

  lemma WithoutColonsPair(t: string, c: char, colon: bool)
    requires c != ':'
    ensures WithoutColons(t + (if colon then [':', c] else [c])) == WithoutColons(t) + [c]
  {
    if colon {
      assert t + [':', c] == (t + [':']) + [c];
      WithoutColonsStep(t, ':');
      WithoutColonsStep(t + [':'], c);
    } else {
      WithoutColonsStep(t, c);
    }
  }

  lemma {:induction false} DroppingColons(s: string)
    requires ':' !in s
    ensures WithoutColons(WithColons(s)) == s
  {
    if s == [] {
      assert WithColons(s) == [];
    } else {
      var front, c := s[..|s| - 1], s[|s| - 1];
      assert s == front + [c];
      DroppingColons(front);
      WithColonsStep(front, c);
      WithoutColonsPair(WithColons(front), c, |front| > 0 && |front| % 2 == 0);
    }
  }

  lemma {:induction false} JoinedKeepsOut(groups: seq<string>, c: char)
    ensures c in Joined(groups) <==> exists g :: g in groups && c in g
  {
    if groups != [] {
      JoinedKeepsOut(groups[1..], c);
      assert groups == [groups[0]] + groups[1..];
    }
  }

  /** Dropping the separators of the output gives the input without its own. */
  lemma DroppingSeparators(groups: seq<string>)
    requires DotFree(groups) && forall g :: g in groups ==> ':' !in g
    ensures WithoutColons(WithColons(DropDots(Dotted(groups)))) == Joined(groups)
  {
    DropDotsJoins(groups);
    JoinedKeepsOut(groups, ':');
    DroppingColons(Joined(groups));
  }

  // ----- Bytes -----

  type Byte = x: int | 0 <= x < 256

  function HexValue(c: char): Option<int> {
    if '0' <= c <= '9' then Some((c - '0') as int)
    else if 'a' <= c <= 'f' then Some((c - 'a') as int + 10)
    else if 'A' <= c <= 'F' then Some((c - 'A') as int + 10)
    else None
  }

  /** The text spells the bytes with two hexadecimal digits each, of either case. */
  predicate Spells(text: string, bytes: seq<Byte>) {
    && |text| == 2 * |bytes|
    && forall i :: 0 <= i < |bytes| ==>
         HexValue(text[2 * i]) == Some(bytes[i] / 16) && HexValue(text[2 * i + 1]) == Some(bytes[i] % 16)
  }

  /** Pairs of hexadecimal digits separated by single colons. */
  predicate IsColonHex(s: string) {
    && |s| % 3 == 2
    && forall k :: 0 <= k < |s| ==> if k % 3 == 2 then s[k] == ':' else HexValue(s[k]).Some?
  }

  /** Reads such a text; none for any other. */
  function ParseColonHex(s: string): Option<seq<int>> {
    if s == [] then Some([])
    else if IsColonHex(s) then
      Some(seq((|s| + 1) / 3, i requires 0 <= i < (|s| + 1) / 3 => HexValue(s[3 * i]).value * 16 + HexValue(s[3 * i + 1]).value))
    else None
  }

  /** The digits of byte `i` in the converted text. */
  lemma DigitsOfByte(text: string, bytes: seq<Byte>, i: nat)
    requires Spells(text, bytes) && i < |bytes|
    ensures var t := WithColons(text);
      && 3 * i + 1 < |t|
      && HexValue(t[3 * i]) == Some(bytes[i] / 16) && HexValue(t[3 * i + 1]) == Some(bytes[i] % 16)
  {
    var hi, lo := 2 * i, 2 * i + 1;
    ColonPositions(text, hi);
    ColonPositions(text, lo);
    assert hi + hi / 2 == 3 * i && lo + lo / 2 == 3 * i + 1;
  }

  lemma ConvertedIsColonHex(text: string, bytes: seq<Byte>)
    requires Spells(text, bytes) && bytes != []
    ensures IsColonHex(WithColons(text)) && |WithColons(text)| == 3 * |bytes| - 1
  {
    var t := WithColons(text);
    forall k | 0 <= k < |t| && k % 3 != 2 ensures HexValue(t[k]).Some? {
      DigitsOfByte(text, bytes, k / 3);
      assert k == 3 * (k / 3) || k == 3 * (k / 3) + 1;
    }
  }

  lemma TextOfBytesReads(text: string, bytes: seq<Byte>)
    requires Spells(text, bytes) && bytes != []
    ensures var r := ParseColonHex(WithColons(text));
      r.Some? && |r.value| == |bytes| && forall i :: 0 <= i < |bytes| ==> r.value[i] == bytes[i]
  {
    ConvertedIsColonHex(text, bytes);
    var r := ParseColonHex(WithColons(text));
    forall i | 0 <= i < |bytes| ensures r.value[i] == bytes[i] {
      DigitsOfByte(text, bytes, i);
    }
  }

  lemma SpellingIsDotFree(groups: seq<string>, bytes: seq<Byte>)
    requires Spells(Joined(groups), bytes)
    ensures DotFree(groups)
  {
    var text := Joined(groups);
    JoinedKeepsOut(groups, '.');
    forall k | 0 <= k < |text| ensures text[k] != '.' {
      var i := k / 2;
      assert HexValue(text[2 * i]).Some? && HexValue(text[2 * i + 1]).Some?;
      assert k == 2 * i || k == 2 * i + 1;
    }
  }

  /** Any dotted form of a byte string, however the dots group its digits, is converted to a text
      that reads back as the bytes. */
  lemma MacRoundTrip(bytes: seq<Byte>, groups: seq<string>)
    requires Spells(Joined(groups), bytes)
    ensures ParseColonHex(WithColons(DropDots(Dotted(groups)))) == Some(bytes)
  {
    var text := Joined(groups);
    SpellingIsDotFree(groups, bytes);
    DropDotsJoins(groups);
    if bytes == [] {
      assert WithColons(text) == [];
    } else {
      TextOfBytesReads(text, bytes);
      assert ParseColonHex(WithColons(text)).value == bytes;
    }
  }

  // ----- The map -----

  datatype AdjObject = AdjObject(intfOut: string, ipv6Addr: string, mac: string)
  datatype RowAdj = RowAdj(tableObject: seq<AdjObject>)
  datatype RowAfi = RowAfi(afi: string, tableAdj: seq<RowAdj>)
  datatype RowVrfNeighborLookup = RowVrfNeighborLookup(vrfNameOut: string, tableAfi: seq<RowAfi>)

  /** The rows in document order. */
  function AdjRows(adjs: seq<RowAdj>): seq<AdjObject> {
    Flat(Objects, adjs)
  }

  function AfiRows(afis: seq<RowAfi>): seq<AdjObject> {
    Flat(RowsOfAfi, afis)
  }

  function VrfRows(vrfs: seq<RowVrfNeighborLookup>): seq<AdjObject> {
    Flat(RowsOfVrf, vrfs)
  }

  function Objects(adj: RowAdj): seq<AdjObject> { adj.tableObject }

  function RowsOfAfi(afi: RowAfi): seq<AdjObject> { AdjRows(afi.tableAdj) }

  function RowsOfVrf(vrf: RowVrfNeighborLookup): seq<AdjObject> { AfiRows(vrf.tableAfi) }

  /** The rows of one part after the other. */
  function Flat<A>(rowsOf: A -> seq<AdjObject>, parts: seq<A>): seq<AdjObject> {
    if parts == [] then [] else rowsOf(parts[0]) + Flat(rowsOf, parts[1..])
  }

  // ----- Rows by their place in the document -----

  /** The row `n` of part `i` comes after all rows of the parts before. */
  lemma {:induction false} FlatAt<A>(rowsOf: A -> seq<AdjObject>, parts: seq<A>, i: nat, n: nat)
    requires i < |parts| && n < |rowsOf(parts[i])|
    ensures |Flat(rowsOf, parts[..i])| + n < |Flat(rowsOf, parts)|
    ensures Flat(rowsOf, parts)[|Flat(rowsOf, parts[..i])| + n] == rowsOf(parts[i])[n]
  {
    if i > 0 {
      assert parts[..i][1..] == parts[1..][..i - 1];
      FlatAt(rowsOf, parts[1..], i - 1, n);
    }
  }

  lemma {:induction false} FlatGrows<A>(rowsOf: A -> seq<AdjObject>, parts: seq<A>, i: nat, k: nat)
    requires i < k <= |parts|
    ensures |Flat(rowsOf, parts[..i])| + |rowsOf(parts[i])| <= |Flat(rowsOf, parts[..k])|
  {
    if i > 0 {
      assert parts[..i][1..] == parts[1..][..i - 1] && parts[..k][1..] == parts[1..][..k - 1];
      FlatGrows(rowsOf, parts[1..], i - 1, k - 1);
    }
  }

  lemma {:induction false} FlatFind<A>(rowsOf: A -> seq<AdjObject>, parts: seq<A>, m: nat) returns (i: nat, n: nat)
    requires m < |Flat(rowsOf, parts)|
    ensures i < |parts| && n < |rowsOf(parts[i])| && m == |Flat(rowsOf, parts[..i])| + n
  {
    if m < |rowsOf(parts[0])| {
      i, n := 0, m;
    } else {
      i, n := FlatFind(rowsOf, parts[1..], m - |rowsOf(parts[0])|);
      assert parts[..i + 1][1..] == parts[1..][..i];
      i := i + 1;
    }
  }

  /** The place of a row: its VRF, address family, adjacency table, and place in that. */
  datatype Place = Place(vrf: nat, afi: nat, adj: nat, row: nat)

  predicate IsPlace(vrfs: seq<RowVrfNeighborLookup>, p: Place) {
    && p.vrf < |vrfs| && p.afi < |vrfs[p.vrf].tableAfi| && p.adj < |vrfs[p.vrf].tableAfi[p.afi].tableAdj|
    && p.row < |vrfs[p.vrf].tableAfi[p.afi].tableAdj[p.adj].tableObject|
  }

  function RowAt(vrfs: seq<RowVrfNeighborLookup>, p: Place): AdjObject
    requires IsPlace(vrfs, p)
  {
    vrfs[p.vrf].tableAfi[p.afi].tableAdj[p.adj].tableObject[p.row]
  }

  /** The order in which a reader meets the places. */
  predicate IsBefore(p: Place, q: Place) {
    || p.vrf < q.vrf
    || (p.vrf == q.vrf && (p.afi < q.afi
    || (p.afi == q.afi && (p.adj < q.adj
    || (p.adj == q.adj && p.row < q.row)))))
  }

  function AdjIndex(adjs: seq<RowAdj>, adj: nat, row: nat): nat
    requires adj < |adjs|
  {
    |Flat(Objects, adjs[..adj])| + row
  }

  function AfiIndex(afis: seq<RowAfi>, afi: nat, adj: nat, row: nat): nat
    requires afi < |afis| && adj < |afis[afi].tableAdj|
  {
    |Flat(RowsOfAfi, afis[..afi])| + AdjIndex(afis[afi].tableAdj, adj, row)
  }

  /** Where the row of a place stands among all rows. */
  function Index(vrfs: seq<RowVrfNeighborLookup>, p: Place): nat
    requires IsPlace(vrfs, p)
  {
    |Flat(RowsOfVrf, vrfs[..p.vrf])| + AfiIndex(vrfs[p.vrf].tableAfi, p.afi, p.adj, p.row)
  }

  lemma RowInAdj(afi: RowAfi, adj: nat, row: nat)
    requires adj < |afi.tableAdj| && row < |afi.tableAdj[adj].tableObject|
    ensures AdjIndex(afi.tableAdj, adj, row) < |RowsOfAfi(afi)|
    ensures RowsOfAfi(afi)[AdjIndex(afi.tableAdj, adj, row)] == afi.tableAdj[adj].tableObject[row]
  {
    FlatAt(Objects, afi.tableAdj, adj, row);
  }

  lemma RowInAfi(vrf: RowVrfNeighborLookup, afi: nat, adj: nat, row: nat)
    requires afi < |vrf.tableAfi| && adj < |vrf.tableAfi[afi].tableAdj| && row < |vrf.tableAfi[afi].tableAdj[adj].tableObject|
    ensures AfiIndex(vrf.tableAfi, afi, adj, row) < |RowsOfVrf(vrf)|
    ensures RowsOfVrf(vrf)[AfiIndex(vrf.tableAfi, afi, adj, row)] == vrf.tableAfi[afi].tableAdj[adj].tableObject[row]
  {
    RowInAdj(vrf.tableAfi[afi], adj, row);
    FlatAt(RowsOfAfi, vrf.tableAfi, afi, AdjIndex(vrf.tableAfi[afi].tableAdj, adj, row));
  }

  lemma RowOfPlace(vrfs: seq<RowVrfNeighborLookup>, p: Place)
    requires IsPlace(vrfs, p)
    ensures Index(vrfs, p) < |VrfRows(vrfs)| && VrfRows(vrfs)[Index(vrfs, p)] == RowAt(vrfs, p)
  {
    RowInAfi(vrfs[p.vrf], p.afi, p.adj, p.row);
    FlatAt(RowsOfVrf, vrfs, p.vrf, AfiIndex(vrfs[p.vrf].tableAfi, p.afi, p.adj, p.row));
  }

  lemma IndexOrder(vrfs: seq<RowVrfNeighborLookup>, p: Place, q: Place)
    requires IsPlace(vrfs, p) && IsPlace(vrfs, q) && IsBefore(p, q)
    ensures Index(vrfs, p) < Index(vrfs, q)
  {
    var afis := vrfs[p.vrf].tableAfi;
    RowInAfi(vrfs[p.vrf], p.afi, p.adj, p.row);
    RowInAdj(afis[p.afi], p.adj, p.row);
    if p.vrf < q.vrf {
      FlatGrows(RowsOfVrf, vrfs, p.vrf, q.vrf);
    } else if p.afi < q.afi {
      FlatGrows(RowsOfAfi, afis, p.afi, q.afi);
    } else if p.adj < q.adj {
      FlatGrows(Objects, afis[p.afi].tableAdj, p.adj, q.adj);
    }
  }

  lemma PlaceOf(vrfs: seq<RowVrfNeighborLookup>, m: nat) returns (p: Place)
    requires m < |VrfRows(vrfs)|
    ensures IsPlace(vrfs, p) && Index(vrfs, p) == m
  {
    var i, n := FlatFind(RowsOfVrf, vrfs, m);
    var j, n' := FlatFind(RowsOfAfi, vrfs[i].tableAfi, n);
    var k, l := FlatFind(Objects, vrfs[i].tableAfi[j].tableAdj, n');
    p := Place(i, j, k, l);
  }

  /** The reading of a colon-separated text as a hardware address, which is not part of this
      model; None stands for its exception. */
  type HwReader = string -> Option<string>

  function HardwareAddress(fromText: HwReader, row: AdjObject): Option<string> {
    fromText(WithColons(DropDots(row.mac)))
  }

  /** If reading a colon-separated text of digits gives the address of its bytes, a row whose MAC is
      any dotted form of some bytes gets the address of those bytes. */
  lemma HardwareAddressOfMac(fromText: HwReader, addressOf: seq<int> -> string, row: AdjObject,
                             bytes: seq<Byte>, groups: seq<string>)
    requires forall t :: ParseColonHex(t).Some? ==> fromText(t) == Some(addressOf(ParseColonHex(t).value))
    requires row.mac == Dotted(groups) && Spells(Joined(groups), bytes)
    ensures HardwareAddress(fromText, row) == Some(addressOf(bytes))
  {
    MacRoundTrip(bytes, groups);
  }

  predicate Concerns(fromText: HwReader, row: AdjObject, hw: string) {
    IsValidVlanName(row.intfOut) && HardwareAddress(fromText, row) == Some(hw)
  }

  /** The last row that has a VLAN interface and this hardware address, or -1. */
  function LastRow(fromText: HwReader, rows: seq<AdjObject>, hw: string): (k: int)
    ensures -1 <= k < |rows|
    ensures k >= 0 ==> Concerns(fromText, rows[k], hw)
    ensures forall j :: k < j < |rows| ==> !Concerns(fromText, rows[j], hw)
  {
    if rows == [] then -1
    else if Concerns(fromText, rows[|rows| - 1], hw) then |rows| - 1
    else LastRow(fromText, rows[..|rows| - 1], hw)
  }

  function LastInterface(fromText: HwReader, rows: seq<AdjObject>, hw: string): Option<string> {
    var k := LastRow(fromText, rows, hw);
    if k < 0 then None else Some(rows[k].intfOut)
  }

  /** Every row with a VLAN interface has a readable MAC. */
  predicate AllReadable(fromText: HwReader, rows: seq<AdjObject>) {
    forall k :: 0 <= k < |rows| && IsValidVlanName(rows[k].intfOut) ==> HardwareAddress(fromText, rows[k]).Some?
  }

  function Get(m: map<string, string>, key: string): Option<string> {
    if key in m then Some(m[key]) else None
  }

  /** The map gives each hardware address the interface of its last row, and has no other keys. */
  ghost predicate IsNeighborMap(fromText: HwReader, rows: seq<AdjObject>, m: map<string, string>) {
    forall hw :: Get(m, hw) == LastInterface(fromText, rows, hw)
  }

  lemma NeighborMapRow(fromText: HwReader, rows: seq<AdjObject>, row: AdjObject, m: map<string, string>)
    requires IsNeighborMap(fromText, rows, m)
    ensures !IsValidVlanName(row.intfOut) ==> IsNeighborMap(fromText, rows + [row], m)
    ensures IsValidVlanName(row.intfOut) && HardwareAddress(fromText, row).Some? ==>
      IsNeighborMap(fromText, rows + [row], m[HardwareAddress(fromText, row).value := row.intfOut])
  {
    var all := rows + [row];
    assert all[..|rows|] == rows;
    forall hw ensures LastInterface(fromText, all, hw)
                   == if Concerns(fromText, row, hw) then Some(row.intfOut) else LastInterface(fromText, rows, hw)
    {
      assert LastRow(fromText, all, hw)
          == if Concerns(fromText, row, hw) then |rows| else LastRow(fromText, rows, hw);
    }
  }

  /** By place in the document: the map has exactly the hardware addresses of the rows with a VLAN
      interface, and gives each the interface of the last such row. */
  lemma NeighborMapByPlace(fromText: HwReader, vrfs: seq<RowVrfNeighborLookup>, m: map<string, string>, hw: string)
    requires IsNeighborMap(fromText, VrfRows(vrfs), m)
    ensures hw in m <==> exists p :: IsPlace(vrfs, p) && Concerns(fromText, RowAt(vrfs, p), hw)
    ensures forall p :: IsPlace(vrfs, p) && Concerns(fromText, RowAt(vrfs, p), hw)
                        && (forall q :: IsPlace(vrfs, q) && IsBefore(p, q) ==> !Concerns(fromText, RowAt(vrfs, q), hw))
              ==> hw in m && m[hw] == RowAt(vrfs, p).intfOut
  {
    var rows := VrfRows(vrfs);
    var last := LastRow(fromText, rows, hw);
    assert Get(m, hw) == LastInterface(fromText, rows, hw);
    if last >= 0 {
      var p := PlaceOf(vrfs, last);
      RowOfPlace(vrfs, p);
    }
    forall p | IsPlace(vrfs, p) && Concerns(fromText, RowAt(vrfs, p), hw)
      ensures last >= Index(vrfs, p)
      ensures (forall q :: IsPlace(vrfs, q) && IsBefore(p, q) ==> !Concerns(fromText, RowAt(vrfs, q), hw)) ==>
        rows[last] == RowAt(vrfs, p)
    {
      RowOfPlace(vrfs, p);
      var q := PlaceOf(vrfs, last);
      RowOfPlace(vrfs, q);
      if IsBefore(q, p) {
        IndexOrder(vrfs, q, p);
      }
      assert IsBefore(p, q) || IsBefore(q, p) || p == q;
    }
  }

  /** Every interface in the map has the name of a VLAN. */
  lemma NeighborsAreOnVlans(fromText: HwReader, rows: seq<AdjObject>, m: map<string, string>)
    requires IsNeighborMap(fromText, rows, m)
    ensures forall hw :: hw in m ==> IsValidVlanName(m[hw])
  {
    forall hw | hw in m ensures IsValidVlanName(m[hw]) {
      assert Get(m, hw) == LastInterface(fromText, rows, hw);
    }
  }

  /** Two maps that both meet the description are equal. */
  lemma NeighborMapUnique(fromText: HwReader, rows: seq<AdjObject>, m: map<string, string>, m': map<string, string>)
    requires IsNeighborMap(fromText, rows, m) && IsNeighborMap(fromText, rows, m')
    ensures m == m'
  {
    forall hw ensures hw in m <==> hw in m' {
      assert Get(m, hw) == Get(m', hw);
    }
    forall hw | hw in m ensures m[hw] == m'[hw] {
      assert Get(m, hw) == Get(m', hw);
    }
  }

  /** The two inner loops: adds the rows of some adjacency tables to the map of the rows done;
      None where the conversion of a MAC throws. */
  method AddAdjacencies(fromText: HwReader, adjs: seq<RowAdj>, before: map<string, string>, ghost done: seq<AdjObject>)
    returns (r: Option<map<string, string>>)
    requires IsNeighborMap(fromText, done, before)
    ensures r.Some? <==> AllReadable(fromText, AdjRows(adjs))
    ensures r.Some? ==> IsNeighborMap(fromText, done + AdjRows(adjs), r.value)
  {
    var m := before;
    ghost var all := AdjRows(adjs);
    ghost var rows: seq<AdjObject> := [];
    assert done + rows == done;
    for k := 0 to |adjs|
      invariant rows + AdjRows(adjs[k..]) == all
      invariant IsNeighborMap(fromText, done + rows, m) && AllReadable(fromText, rows)
    {
      var objects := adjs[k].tableObject;
      ghost var rest := AdjRows(adjs[k + 1..]);
      assert adjs[k..][1..] == adjs[k + 1..];
      for l := 0 to |objects|
        invariant rows + (objects[l..] + rest) == all
        invariant IsNeighborMap(fromText, done + rows, m) && AllReadable(fromText, rows)
      {
        var object' := objects[l];
        TakeRow(rows, objects, l, rest);
        NeighborMapRow(fromText, done + rows, object', m);
        if IsValidVlanName(object'.intfOut) {
          var mac := FromRawCiscoString(object'.mac);
          var hw := fromText(mac);
          if hw.None? {
            return None;
          }
          m := m[hw.value := object'.intfOut];
        }
        assert done + (rows + [object']) == done + rows + [object'];
        rows := rows + [object'];
      }
    }
    assert rows == all;
    return Some(m);
  }

  /** The next row of a table, moved from the rows to come to the rows done. */
  lemma TakeRow(done: seq<AdjObject>, objects: seq<AdjObject>, l: nat, rest: seq<AdjObject>)
    requires l < |objects|
    ensures done + (objects[l..] + rest) == (done + [objects[l]]) + (objects[l + 1..] + rest)
    ensures (done + (objects[l..] + rest))[|done|] == objects[l]
  {
    assert objects[l..] == [objects[l]] + objects[l + 1..];
  }

  lemma ReadableConcat(fromText: HwReader, a: seq<AdjObject>, b: seq<AdjObject>)
    ensures AllReadable(fromText, a + b) <==> AllReadable(fromText, a) && AllReadable(fromText, b)
  {
    if AllReadable(fromText, a + b) {
      assert forall k :: 0 <= k < |a| ==> a[k] == (a + b)[k];
      assert forall k :: 0 <= k < |b| ==> b[k] == (a + b)[k + |a|];
    }
  }

  /** The loop over the address families of one VRF. */
  method AddFamilies(fromText: HwReader, afis: seq<RowAfi>, before: map<string, string>, ghost done: seq<AdjObject>)
    returns (r: Option<map<string, string>>)
    requires IsNeighborMap(fromText, done, before)
    ensures r.Some? <==> AllReadable(fromText, AfiRows(afis))
    ensures r.Some? ==> IsNeighborMap(fromText, done + AfiRows(afis), r.value)
  {
    var m := before;
    ghost var all := AfiRows(afis);
    ghost var rows: seq<AdjObject> := [];
    assert done + rows == done;
    for j := 0 to |afis|
      invariant rows + AfiRows(afis[j..]) == all
      invariant IsNeighborMap(fromText, done + rows, m) && AllReadable(fromText, rows)
    {
      ghost var here, later := AdjRows(afis[j].tableAdj), AfiRows(afis[j + 1..]);
      assert afis[j..][1..] == afis[j + 1..];
      assert all == (rows + here) + later;
      ReadableConcat(fromText, rows + here, later);
      ReadableConcat(fromText, rows, here);
      var added := AddAdjacencies(fromText, afis[j].tableAdj, m, done + rows);
      if added.None? {
        return None;
      }
      m := added.value;
      assert done + rows + here == done + (rows + here);
      rows := rows + here;
    }
    assert rows == all;
    return Some(m);
  }

  /** The nested loops of the neighbour lookup over the decoded table; None where the
      conversion of a MAC throws and the callback is left without calling its handler. */
  method BuildNeighborMap(fromText: HwReader, tableVrf: seq<RowVrfNeighborLookup>) returns (r: Option<map<string, string>>)
    ensures r.Some? <==> AllReadable(fromText, VrfRows(tableVrf))
    ensures r.Some? ==> IsNeighborMap(fromText, VrfRows(tableVrf), r.value)
  {
    var m: map<string, string> := map[];
    ghost var all := VrfRows(tableVrf);
    ghost var done: seq<AdjObject> := [];
    for i := 0 to |tableVrf|
      invariant done + VrfRows(tableVrf[i..]) == all
      invariant IsNeighborMap(fromText, done, m) && AllReadable(fromText, done)
    {
      ghost var here, later := AfiRows(tableVrf[i].tableAfi), VrfRows(tableVrf[i + 1..]);
      assert tableVrf[i..][1..] == tableVrf[i + 1..];
      assert all == (done + here) + later;
      ReadableConcat(fromText, done + here, later);
      ReadableConcat(fromText, done, here);
      var added := AddFamilies(fromText, tableVrf[i].tableAfi, m, done);
      if added.None? {
        return None;
      }
      m := added.value;
      done := done + here;
    }
    assert done == all;
    return Some(m);
  }
}
