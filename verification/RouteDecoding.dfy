/** Decoding the route-lookup answer from JSON. */
module RouteDecoding {
  import opened Common
  import opened RouteLookup

  datatype Json =
    | JNull
    | JBool(flag: bool)
    | JNumber(number: int)
    | JString(text: string)
    | JArray(items: seq<Json>)
    | JObject(fields: map<string, Json>)

  // ----- Access, as the JSON library gives it -----

  /** The value at a key; an error for a missing key or a value that is no object. */
  function At(j: Json, key: string): Result<Json> {
    if j.JObject? && key in j.fields then Ok(j.fields[key]) else Err
  }

  predicate Contains(j: Json, key: string) {
    j.JObject? && key in j.fields
  }

  function GetString(j: Json): Result<string> {
    if j.JString? then Ok(j.text) else Err
  }

  function StringAt(j: Json, key: string): Result<string> {
    var value :- At(j, key);
    GetString(value)
  }

  function GetOptional(j: Json): Result<Option<string>> {
    if j.JNull? then Ok(None) else var text :- GetString(j); Ok(Some(text))
  }

  // ----- What the decoders compute -----

  /** The content a C++ string keeps after it has been moved from: unspecified. */
  type MovedFrom = string -> string

  /** One entry of a path array.  The next hop is read into the variable that held the
      interface name, so an entry with a name and no next hop keeps the moved-from string. */
  function DecodePathItem(moved: MovedFrom, item: Json): Result<(Option<string>, Option<string>)> {
    var ifname :- if Contains(item, "ifname") then (var s :- StringAt(item, "ifname"); Ok(Some(s))) else Ok(None);
    var left := if ifname.Some? then Some(moved(ifname.value)) else None;
    var hop :- if Contains(item, "ipnexthop") then (var s :- StringAt(item, "ipnexthop"); Ok(Some(s))) else Ok(left);
    Ok((ifname, hop))
  }

  function DecodePathItems(moved: MovedFrom, items: seq<Json>): Result<RowPath> {
    if items == [] then Ok(RowPath([], []))
    else
      var front :- DecodePathItems(moved, items[..|items| - 1]);
      var last :- DecodePathItem(moved, items[|items| - 1]);
      Ok(RowPath(front.ipnexthop + [last.1], front.ifname + [last.0]))
  }

  function OptionalAt(j: Json, key: string): Result<Option<string>> {
    if Contains(j, key) then GetOptional(j.fields[key]) else Ok(None)
  }

  function DecodeRowPath(moved: MovedFrom, j: Json): Result<RowPath> {
    var inner :- At(j, "ROW_path");
    match inner
    case JArray(items) => DecodePathItems(moved, items)
    case JObject(_) =>
      var hop :- OptionalAt(inner, "ipnexthop");
      var ifname :- OptionalAt(inner, "ifname");
      Ok(RowPath([hop], [ifname]))
    case _ => Ok(RowPath([], []))
  }

  /** Every element of an array, or an error if one has an error. */
  function DecodeAll<T>(decode: Json -> Result<T>, items: seq<Json>): Result<seq<T>> {
    if items == [] then Ok([])
    else
      var front :- DecodeAll(decode, items[..|items| - 1]);
      var last :- decode(items[|items| - 1]);
      Ok(front + [last])
  }

  /** A table: a bare object is one row, an array is its rows, anything else is no table. */
  function DecodeTable<T>(decode: Json -> Result<T>, table: Json): Result<Option<seq<T>>> {
    match table
    case JObject(_) => var row :- decode(table); Ok(Some([row]))
    case JArray(items) => var rows :- DecodeAll(decode, items); Ok(Some(rows))
    case _ => Ok(None)
  }

  function TableAt<T>(decode: Json -> Result<T>, j: Json, key: string): Result<Option<seq<T>>> {
    if Contains(j, key) then DecodeTable(decode, j.fields[key]) else Ok(None)
  }

  function PathDecoder(moved: MovedFrom): Json -> Result<RowPath> {
    j => DecodeRowPath(moved, j)
  }

  function DecodeRowPrefix(moved: MovedFrom, j: Json): Result<RowPrefix> {
    var inner :- At(j, "ROW_prefix");
    var ipprefix :- StringAt(inner, "ipprefix");
    var attached :- StringAt(inner, "attached");
    var table :- At(inner, "TABLE_path");
    var paths :- DecodeTable(PathDecoder(moved), table);
    if paths.None? then Err
    else Ok(RowPrefix(ipprefix, !(attached == "false" || attached == "FALSE"), paths.value))
  }

  function PrefixDecoder(moved: MovedFrom): Json -> Result<RowPrefix> {
    j => DecodeRowPrefix(moved, j)
  }

  function DecodeRowAddr(moved: MovedFrom, j: Json): Result<RowAddr> {
    var inner :- At(j, "ROW_addrf");
    var addrf :- StringAt(inner, "addrf");
    var prefixes :- TableAt(PrefixDecoder(moved), inner, "TABLE_prefix");
    Ok(RowAddr(addrf, prefixes))
  }

  function AddrDecoder(moved: MovedFrom): Json -> Result<RowAddr> {
    j => DecodeRowAddr(moved, j)
  }

  function DecodeRowVrf(moved: MovedFrom, j: Json): Result<RowVrf> {
    var inner :- At(j, "ROW_vrf");
    var name :- StringAt(inner, "vrf-name-out");
    var addrs :- TableAt(AddrDecoder(moved), inner, "TABLE_addrf");
    Ok(RowVrf(name, if addrs.None? then [] else addrs.value))
  }

  function VrfDecoder(moved: MovedFrom): Json -> Result<RowVrf> {
    j => DecodeRowVrf(moved, j)
  }

  function DecodeResponse(moved: MovedFrom, j: Json): Result<RouteLookupResponse> {
    var vrfs :- TableAt(VrfDecoder(moved), j, "TABLE_vrf");
    Ok(RouteLookupResponse(if vrfs.None? then [] else vrfs.value))
  }

  // ----- The decoders as they fill their rows -----

  lemma {:induction false} PathItemsError(moved: MovedFrom, items: seq<Json>, k: nat)
    requires k < |items| && DecodePathItem(moved, items[k]).Err?
    ensures DecodePathItems(moved, items).Err?
  {
    if k < |items| - 1 {
      PathItemsError(moved, items[..|items| - 1], k);
    }
  }

  lemma PathItemsStep(moved: MovedFrom, items: seq<Json>, k: nat)
    requires k < |items|
    ensures DecodePathItems(moved, items[..k + 1]) ==
      var front := DecodePathItems(moved, items[..k]);
      var last := DecodePathItem(moved, items[k]);
      if front.Err? || last.Err? then Err
      else Ok(RowPath(front.value.ipnexthop + [last.value.1], front.value.ifname + [last.value.0]))
  {
    assert items[..k + 1][..k] == items[..k];
  }

  method RowPathFromJson(moved: MovedFrom, j: Json) returns (r: Result<RowPath>)
    ensures r == DecodeRowPath(moved, j)
  {
    var inner :- At(j, "ROW_path");
    var ifnames: seq<Option<string>>, hops: seq<Option<string>> := [], [];
    if inner.JArray? {
      for k := 0 to |inner.items|
        invariant DecodePathItems(moved, inner.items[..k]) == Ok(RowPath(hops, ifnames))
      {
        var path := inner.items[k];
        PathItemsStep(moved, inner.items, k);
        if DecodePathItem(moved, path).Err? {
          PathItemsError(moved, inner.items, k);
        }
        var tmp: Option<string> := None;
        if Contains(path, "ifname") {
          var s :- StringAt(path, "ifname");
          tmp := Some(s);
        }
        ifnames := ifnames + [tmp];
        tmp := if tmp.Some? then Some(moved(tmp.value)) else None;
        if Contains(path, "ipnexthop") {
          var s :- StringAt(path, "ipnexthop");
          tmp := Some(s);
        }
        hops := hops + [tmp];
      }
      assert inner.items[..|inner.items|] == inner.items;
    } else if inner.JObject? {
      hops, ifnames := [None], [None];
      if Contains(inner, "ipnexthop") {
        var hop :- GetOptional(inner.fields["ipnexthop"]);
        hops := [hop];
      }
      if Contains(inner, "ifname") {
        var ifname :- GetOptional(inner.fields["ifname"]);
        ifnames := [ifname];
      }
    }
    return Ok(RowPath(hops, ifnames));
  }

  lemma {:induction false} AllError<T>(decode: Json -> Result<T>, items: seq<Json>, k: nat)
    requires k < |items| && decode(items[k]).Err?
    ensures DecodeAll(decode, items).Err?
  {
    if k < |items| - 1 {
      AllError(decode, items[..|items| - 1], k);
    }
  }

  lemma AllStep<T>(decode: Json -> Result<T>, items: seq<Json>, k: nat)
    requires k < |items|
    ensures DecodeAll(decode, items[..k + 1]) ==
      var front := DecodeAll(decode, items[..k]);
      if front.Err? || decode(items[k]).Err? then Err else Ok(front.value + [decode(items[k]).value])
    ensures decode(items[k]).Err? ==> DecodeAll(decode, items).Err?
  {
    assert items[..k + 1][..k] == items[..k];
    if decode(items[k]).Err? {
      AllError(decode, items, k);
    }
  }

  method RowPrefixFromJson(moved: MovedFrom, j: Json) returns (r: Result<RowPrefix>)
    ensures r == DecodeRowPrefix(moved, j)
  {
    var inner :- At(j, "ROW_prefix");
    var ipprefix :- StringAt(inner, "ipprefix");
    var tmp :- StringAt(inner, "attached");
    var attached := true;
    if tmp == "false" || tmp == "FALSE" {
      attached := false;
    }
    var table :- At(inner, "TABLE_path");
    var data: seq<RowPath> := [];
    if table.JObject? {
      var row := RowPathFromJson(moved, table);
      if row.Err? { return Err; }
      data := [row.value];
    } else if table.JArray? {
      for k := 0 to |table.items|
        invariant DecodeAll(PathDecoder(moved), table.items[..k]) == Ok(data)
      {
        AllStep(PathDecoder(moved), table.items, k);
        var row := RowPathFromJson(moved, table.items[k]);
        if row.Err? { return Err; }
        data := data + [row.value];
      }
      assert table.items[..|table.items|] == table.items;
    } else {
      return Err;
    }
    return Ok(RowPrefix(ipprefix, attached, data));
  }

  method RowAddrFromJson(moved: MovedFrom, j: Json) returns (r: Result<RowAddr>)
    ensures r == DecodeRowAddr(moved, j)
  {
    var inner :- At(j, "ROW_addrf");
    var addrf :- StringAt(inner, "addrf");
    var tablePrefix: Option<seq<RowPrefix>> := None;
    if Contains(inner, "TABLE_prefix") {
      var table := inner.fields["TABLE_prefix"];
      var data: seq<RowPrefix> := [];
      if table.JObject? {
        var row := RowPrefixFromJson(moved, table);
        if row.Err? { return Err; }
        tablePrefix := Some([row.value]);
      } else if table.JArray? {
        for k := 0 to |table.items|
          invariant DecodeAll(PrefixDecoder(moved), table.items[..k]) == Ok(data)
        {
          AllStep(PrefixDecoder(moved), table.items, k);
          var row := RowPrefixFromJson(moved, table.items[k]);
          if row.Err? { return Err; }
          data := data + [row.value];
        }
        assert table.items[..|table.items|] == table.items;
        tablePrefix := Some(data);
      }
    }
    return Ok(RowAddr(addrf, tablePrefix));
  }

  method RowVrfFromJson(moved: MovedFrom, j: Json) returns (r: Result<RowVrf>)
    ensures r == DecodeRowVrf(moved, j)
  {
    var inner :- At(j, "ROW_vrf");
    var name :- StringAt(inner, "vrf-name-out");
    var data: seq<RowAddr> := [];
    if Contains(inner, "TABLE_addrf") {
      var table := inner.fields["TABLE_addrf"];
      if table.JObject? {
        var row := RowAddrFromJson(moved, table);
        if row.Err? { return Err; }
        data := [row.value];
      } else if table.JArray? {
        for k := 0 to |table.items|
          invariant DecodeAll(AddrDecoder(moved), table.items[..k]) == Ok(data)
        {
          AllStep(AddrDecoder(moved), table.items, k);
          var row := RowAddrFromJson(moved, table.items[k]);
          if row.Err? { return Err; }
          data := data + [row.value];
        }
        assert table.items[..|table.items|] == table.items;
      }
    }
    return Ok(RowVrf(name, data));
  }

  method ResponseFromJson(moved: MovedFrom, j: Json) returns (r: Result<RouteLookupResponse>)
    ensures r == DecodeResponse(moved, j)
  {
    var data: seq<RowVrf> := [];
    if Contains(j, "TABLE_vrf") {
      var table := j.fields["TABLE_vrf"];
      if table.JObject? {
        var row := RowVrfFromJson(moved, table);
        if row.Err? { return Err; }
        data := [row.value];
      } else if table.JArray? {
        for k := 0 to |table.items|
          invariant DecodeAll(VrfDecoder(moved), table.items[..k]) == Ok(data)
        {
          AllStep(VrfDecoder(moved), table.items, k);
          var row := RowVrfFromJson(moved, table.items[k]);
          if row.Err? { return Err; }
          data := data + [row.value];
        }
        assert table.items[..|table.items|] == table.items;
      }
    }
    return Ok(RouteLookupResponse(data));
  }

  // ----- Shape independence -----

  type Relation = (Json, Json) -> bool

  function SameRows(rows: Relation, a: seq<Json>, b: seq<Json>): bool {
    |a| == |b| && forall k :: 0 <= k < |a| ==> rows(a[k], b[k])
  }

  /** Two tables with the same rows, where a single row may stand bare or in an array. */
  predicate SameTable(rows: Relation, t: Json, u: Json) {
    || t == u
    || (t.JObject? && u.JObject? && rows(t, u))
    || (t.JArray? && u.JArray? && SameRows(rows, t.items, u.items))
    || (t.JObject? && u.JArray? && SameRows(rows, [t], u.items))
    || (t.JArray? && u.JObject? && SameRows(rows, t.items, [u]))
  }

  /** Two objects that agree on every key but one, where they have tables with the same rows. */
  predicate SameUpToTable(rows: Relation, key: string, j: Json, k: Json) {
    || j == k
    || (&& j.JObject? && k.JObject? && key in j.fields && key in k.fields
        && j.fields - {key} == k.fields - {key}
        && SameTable(rows, j.fields[key], k.fields[key]))
  }

  /** Two rows whose content, under its own key, is the same up to a table. */
  predicate SameRow(rows: Relation, rowKey: string, tableKey: string, j: Json, k: Json) {
    || j == k
    || (&& j.JObject? && k.JObject? && rowKey in j.fields && rowKey in k.fields
        && SameUpToTable(rows, tableKey, j.fields[rowKey], k.fields[rowKey]))
  }

  function SamePath(): Relation { (j, k) => j == k }
  function SamePrefix(): Relation { (j, k) => SameRow(SamePath(), "ROW_prefix", "TABLE_path", j, k) }
  function SameAddr(): Relation { (j, k) => SameRow(SamePrefix(), "ROW_addrf", "TABLE_prefix", j, k) }
  function SameVrf(): Relation { (j, k) => SameRow(SameAddr(), "ROW_vrf", "TABLE_addrf", j, k) }

  /** Two answers that differ only in whether single rows of the four tables above the paths
      stand bare or in one-element arrays. */
  predicate SameAnswer(j: Json, k: Json) {
    SameUpToTable(SameVrf(), "TABLE_vrf", j, k)
  }

  ghost predicate Respects<T>(decode: Json -> Result<T>, rows: Relation) {
    forall j, k :: rows(j, k) ==> decode(j) == decode(k)
  }

  lemma {:induction false} DecodeSameRows<T>(decode: Json -> Result<T>, rows: Relation, a: seq<Json>, b: seq<Json>)
    requires Respects(decode, rows) && SameRows(rows, a, b)
    ensures DecodeAll(decode, a) == DecodeAll(decode, b)
  {
    if a != [] {
      var n := |a| - 1;
      assert rows(a[n], b[n]);
      assert forall k :: 0 <= k < n ==> a[..n][k] == a[k] && b[..n][k] == b[k];
      DecodeSameRows(decode, rows, a[..n], b[..n]);
    }
  }

  lemma DecodeSingle<T>(decode: Json -> Result<T>, j: Json)
    ensures DecodeAll(decode, [j]) == if decode(j).Err? then Err else Ok([decode(j).value])
  {
    var items := [j];
    assert items[..|items| - 1] == [];
    assert items[|items| - 1] == j;
    assert DecodeAll(decode, items[..|items| - 1]) == Ok([]);
    if decode(j).Err? {
      AllError(decode, items, 0);
    } else {
      var none: seq<T> := [];
      assert none + [decode(j).value] == [decode(j).value];
    }
  }

  lemma DecodeSameTable<T>(decode: Json -> Result<T>, rows: Relation, t: Json, u: Json)
    requires Respects(decode, rows) && SameTable(rows, t, u)
    ensures DecodeTable(decode, t) == DecodeTable(decode, u)
  {
    if t != u {
      if t.JArray? && u.JArray? {
        DecodeSameRows(decode, rows, t.items, u.items);
      } else if t.JObject? && u.JArray? {
        DecodeSingle(decode, t);
        DecodeSameRows(decode, rows, [t], u.items);
      } else if t.JArray? && u.JObject? {
        DecodeSingle(decode, u);
        DecodeSameRows(decode, rows, t.items, [u]);
      }
    }
  }

  lemma SameOtherKeys(j: map<string, Json>, k: map<string, Json>, tableKey: string, key: string)
    requires j - {tableKey} == k - {tableKey} && key != tableKey
    ensures key in j <==> key in k
    ensures key in j ==> j[key] == k[key]
  {
    assert key in j <==> key in j - {tableKey};
    assert key in k <==> key in k - {tableKey};
    if key in j {
      assert j[key] == (j - {tableKey})[key] && k[key] == (k - {tableKey})[key];
    }
  }

  lemma PrefixRespects(moved: MovedFrom)
    ensures Respects(PrefixDecoder(moved), SamePrefix())
  {
    forall j, k | SamePrefix()(j, k) ensures PrefixDecoder(moved)(j) == PrefixDecoder(moved)(k) {
      if j != k {
        var a, b := j.fields["ROW_prefix"], k.fields["ROW_prefix"];
        if a != b {
          SameOtherKeys(a.fields, b.fields, "TABLE_path", "ipprefix");
          SameOtherKeys(a.fields, b.fields, "TABLE_path", "attached");
          DecodeSameTable(PathDecoder(moved), SamePath(), a.fields["TABLE_path"], b.fields["TABLE_path"]);
        }
      }
    }
  }

  lemma AddrRespects(moved: MovedFrom)
    ensures Respects(AddrDecoder(moved), SameAddr())
  {
    PrefixRespects(moved);
    forall j, k | SameAddr()(j, k) ensures AddrDecoder(moved)(j) == AddrDecoder(moved)(k) {
      if j != k {
        var a, b := j.fields["ROW_addrf"], k.fields["ROW_addrf"];
        if a != b {
          SameOtherKeys(a.fields, b.fields, "TABLE_prefix", "addrf");
          DecodeSameTable(PrefixDecoder(moved), SamePrefix(), a.fields["TABLE_prefix"], b.fields["TABLE_prefix"]);
        }
      }
    }
  }

  lemma VrfRespects(moved: MovedFrom)
    ensures Respects(VrfDecoder(moved), SameVrf())
  {
    AddrRespects(moved);
    forall j, k | SameVrf()(j, k) ensures VrfDecoder(moved)(j) == VrfDecoder(moved)(k) {
      if j != k {
        var a, b := j.fields["ROW_vrf"], k.fields["ROW_vrf"];
        if a != b {
          SameOtherKeys(a.fields, b.fields, "TABLE_addrf", "vrf-name-out");
          DecodeSameTable(AddrDecoder(moved), SameAddr(), a.fields["TABLE_addrf"], b.fields["TABLE_addrf"]);
        }
      }
    }
  }

  /** Answers that differ only in the shape of their tables decode to the same value, or fail
      to decode alike. */
  lemma DecodingIgnoresTableShape(moved: MovedFrom, j: Json, k: Json)
    requires SameAnswer(j, k)
    ensures DecodeResponse(moved, j) == DecodeResponse(moved, k)
  {
    VrfRespects(moved);
    if j != k {
      DecodeSameTable(VrfDecoder(moved), SameVrf(), j.fields["TABLE_vrf"], k.fields["TABLE_vrf"]);
    }
  }

  // ----- Decoded paths -----

  /** The lists of a decoded path have the same length. */
  lemma {:induction false} PathItemsBalanced(moved: MovedFrom, items: seq<Json>)
    ensures var r := DecodePathItems(moved, items);
      r.Ok? ==> |r.value.ifname| == |r.value.ipnexthop| == |items|
    ensures var r := DecodePathItems(moved, items);
      r.Ok? ==> forall k :: 0 <= k < |items| ==> DecodePathItem(moved, items[k]) == Ok((r.value.ifname[k], r.value.ipnexthop[k]))
  {
    if items != [] {
      PathItemsBalanced(moved, items[..|items| - 1]);
    }
  }

  lemma DecodedPathIsBalanced(moved: MovedFrom, j: Json)
    ensures DecodeRowPath(moved, j).Ok? ==>
      |DecodeRowPath(moved, j).value.ifname| == |DecodeRowPath(moved, j).value.ipnexthop|
  {
    var inner := At(j, "ROW_path");
    if inner.Ok? && inner.value.JArray? {
      PathItemsBalanced(moved, inner.value.items);
    }
  }

  /** In a decoded path array an entry has an interface name exactly if the document gives one,
      but a next hop as soon as it gives either: the next hop is the document's own if and only
      if the document gives one or gives no interface name. */
  lemma PathArrayEntries(moved: MovedFrom, items: seq<Json>, k: nat)
    requires k < |items| && DecodePathItems(moved, items).Ok?
    ensures var path := DecodePathItems(moved, items).value;
      && k < |path.ifname| && k < |path.ipnexthop|
      && (path.ifname[k].Some? <==> Contains(items[k], "ifname"))
      && (path.ipnexthop[k].Some? <==> Contains(items[k], "ipnexthop") || Contains(items[k], "ifname"))
      && (Contains(items[k], "ipnexthop") ==> items[k].fields["ipnexthop"] == JString(path.ipnexthop[k].value))
      && (Contains(items[k], "ifname") ==> items[k].fields["ifname"] == JString(path.ifname[k].value))
  {
    PathItemsBalanced(moved, items);
  }

  /** A bare path object gives one entry, each half of it exactly what the document has under its
      own key, null and absence alike meaning none. */
  lemma PathObjectEntry(moved: MovedFrom, j: Json)
    requires DecodeRowPath(moved, j).Ok? && j.fields["ROW_path"].JObject?
    ensures var path, inner := DecodeRowPath(moved, j).value, j.fields["ROW_path"];
      && path == RowPath([path.ipnexthop[0]], [path.ifname[0]])
      && (path.ifname[0].Some? <==> Contains(inner, "ifname") && inner.fields["ifname"] != JNull)
      && (path.ifname[0].Some? ==> inner.fields["ifname"] == JString(path.ifname[0].value))
      && (path.ipnexthop[0].Some? <==> Contains(inner, "ipnexthop") && inner.fields["ipnexthop"] != JNull)
      && (path.ipnexthop[0].Some? ==> inner.fields["ipnexthop"] == JString(path.ipnexthop[0].value))
  {
  }

  // ----- What a decoded row says of the document -----

  /** The rows of a table: the bare object itself, or the items of the array. */
  ghost predicate RowsAre<T>(decode: Json -> Result<T>, table: Json, rows: seq<T>) {
    match table
    case JObject(_) => |rows| == 1 && decode(table) == Ok(rows[0])
    case JArray(items) => |rows| == |items| && forall k :: 0 <= k < |items| ==> decode(items[k]) == Ok(rows[k])
    case _ => false
  }

  lemma {:induction false} DecodedAll<T>(decode: Json -> Result<T>, items: seq<Json>)
    ensures DecodeAll(decode, items).Ok? ==>
      var rows := DecodeAll(decode, items).value;
      |rows| == |items| && forall k :: 0 <= k < |items| ==> decode(items[k]) == Ok(rows[k])
  {
    if items != [] {
      DecodedAll(decode, items[..|items| - 1]);
    }
  }

  lemma DecodedTable<T>(decode: Json -> Result<T>, table: Json)
    requires DecodeTable(decode, table).Ok?
    ensures var rows := DecodeTable(decode, table).value;
      if rows.Some? then RowsAre(decode, table, rows.value) else !table.JObject? && !table.JArray?
  {
    if table.JArray? {
      DecodedAll(decode, table.items);
    }
  }

  /** A prefix row can only be decoded from a document that has all its mandatory parts, and has
      their values. */
  lemma DecodedPrefixFrom(moved: MovedFrom, j: Json)
    requires DecodeRowPrefix(moved, j).Ok?
    ensures Contains(j, "ROW_prefix")
    ensures var row, inner := DecodeRowPrefix(moved, j).value, j.fields["ROW_prefix"];
      && Contains(inner, "ipprefix") && inner.fields["ipprefix"] == JString(row.ipprefix)
      && Contains(inner, "attached") && inner.fields["attached"].JString?
      && (row.attached <==> inner.fields["attached"].text !in {"false", "FALSE"})
      && Contains(inner, "TABLE_path") && RowsAre(PathDecoder(moved), inner.fields["TABLE_path"], row.tablePath)
  {
    DecodedTable(PathDecoder(moved), j.fields["ROW_prefix"].fields["TABLE_path"]);
  }

  /** The same for an address row, whose table may be missing. */
  lemma DecodedAddrFrom(moved: MovedFrom, j: Json)
    requires DecodeRowAddr(moved, j).Ok?
    ensures Contains(j, "ROW_addrf")
    ensures var row, inner := DecodeRowAddr(moved, j).value, j.fields["ROW_addrf"];
      && Contains(inner, "addrf") && inner.fields["addrf"] == JString(row.addrf)
      && if Contains(inner, "TABLE_prefix") && (inner.fields["TABLE_prefix"].JObject? || inner.fields["TABLE_prefix"].JArray?)
         then row.tablePrefix.Some? && RowsAre(PrefixDecoder(moved), inner.fields["TABLE_prefix"], row.tablePrefix.value)
         else row.tablePrefix.None?
  {
    var inner := j.fields["ROW_addrf"];
    if Contains(inner, "TABLE_prefix") {
      DecodedTable(PrefixDecoder(moved), inner.fields["TABLE_prefix"]);
    }
  }

  lemma DecodedVrfFrom(moved: MovedFrom, j: Json)
    requires DecodeRowVrf(moved, j).Ok?
    ensures Contains(j, "ROW_vrf")
    ensures var row, inner := DecodeRowVrf(moved, j).value, j.fields["ROW_vrf"];
      && Contains(inner, "vrf-name-out") && inner.fields["vrf-name-out"] == JString(row.vrfNameOut)
      && if Contains(inner, "TABLE_addrf") && (inner.fields["TABLE_addrf"].JObject? || inner.fields["TABLE_addrf"].JArray?)
         then RowsAre(AddrDecoder(moved), inner.fields["TABLE_addrf"], row.tableAddrf)
         else row.tableAddrf == []
  {
    var inner := j.fields["ROW_vrf"];
    if Contains(inner, "TABLE_addrf") {
      DecodedTable(AddrDecoder(moved), inner.fields["TABLE_addrf"]);
    }
  }

  lemma DecodedResponseFrom(moved: MovedFrom, j: Json)
    requires DecodeResponse(moved, j).Ok?
    ensures var response := DecodeResponse(moved, j).value;
      if Contains(j, "TABLE_vrf") && (j.fields["TABLE_vrf"].JObject? || j.fields["TABLE_vrf"].JArray?)
      then RowsAre(VrfDecoder(moved), j.fields["TABLE_vrf"], response.tableVrf)
      else response.tableVrf == []
  {
    if Contains(j, "TABLE_vrf") {
      DecodedTable(VrfDecoder(moved), j.fields["TABLE_vrf"]);
    }
  }

  // ----- Round trip -----

  function Entry(ifname: Option<string>, hop: Option<string>): Json {
    JObject((if ifname.Some? then map["ifname" := JString(ifname.value)] else map[])
            + if hop.Some? then map["ipnexthop" := JString(hop.value)] else map[])
  }

  /** A path in the switch's notation: one entry stands bare, several stand in an array. */
  function EncodeRowPath(path: RowPath): Json
    requires |path.ifname| == |path.ipnexthop|
  {
    JObject(map["ROW_path" :=
      if |path.ifname| == 1 then Entry(path.ifname[0], path.ipnexthop[0])
      else JArray(seq(|path.ifname|, k requires 0 <= k < |path.ifname| => Entry(path.ifname[k], path.ipnexthop[k])))])
  }

  /** The paths that the notation can give back: in an array, an entry with an interface name has
      a next hop. */
  predicate IsPath(path: RowPath) {
    && |path.ifname| == |path.ipnexthop|
    && (|path.ifname| == 1 || forall k :: 0 <= k < |path.ifname| && path.ifname[k].Some? ==> path.ipnexthop[k].Some?)
  }

  predicate IsPrefixRow(row: RowPrefix) {
    forall k :: 0 <= k < |row.tablePath| ==> IsPath(row.tablePath[k])
  }

  predicate IsAddrRow(row: RowAddr) {
    row.tablePrefix.Some? ==> forall k :: 0 <= k < |row.tablePrefix.value| ==> IsPrefixRow(row.tablePrefix.value[k])
  }

  predicate IsVrfRow(row: RowVrf) {
    forall k :: 0 <= k < |row.tableAddrf| ==> IsAddrRow(row.tableAddrf[k])
  }

  predicate IsResponse(response: RouteLookupResponse) {
    forall k :: 0 <= k < |response.tableVrf| ==> IsVrfRow(response.tableVrf[k])
  }

  function EncodePaths(row: RowPrefix): seq<Json>
    requires IsPrefixRow(row)
  {
    seq(|row.tablePath|, k requires 0 <= k < |row.tablePath| && IsPrefixRow(row) => EncodeRowPath(row.tablePath[k]))
  }

  function EncodeRowPrefix(row: RowPrefix): Json
    requires IsPrefixRow(row)
  {
    JObject(map["ROW_prefix" := JObject(map[
      "ipprefix" := JString(row.ipprefix),
      "attached" := JString(if row.attached then "true" else "false"),
      "TABLE_path" := JArray(EncodePaths(row))])])
  }

  function EncodeRowAddr(row: RowAddr): Json
    requires IsAddrRow(row)
  {
    JObject(map["ROW_addrf" := JObject(
      if row.tablePrefix.None? then map["addrf" := JString(row.addrf)]
      else map[
        "addrf" := JString(row.addrf),
        "TABLE_prefix" := JArray(seq(|row.tablePrefix.value|, k requires 0 <= k < |row.tablePrefix.value| && IsAddrRow(row) =>
                                   EncodeRowPrefix(row.tablePrefix.value[k])))])])
  }

  function EncodeRowVrf(row: RowVrf): Json
    requires IsVrfRow(row)
  {
    JObject(map["ROW_vrf" := JObject(map[
      "vrf-name-out" := JString(row.vrfNameOut),
      "TABLE_addrf" := JArray(seq(|row.tableAddrf|, k requires 0 <= k < |row.tableAddrf| && IsVrfRow(row) =>
                                EncodeRowAddr(row.tableAddrf[k])))])])
  }

  function EncodeResponse(response: RouteLookupResponse): Json
    requires IsResponse(response)
  {
    JObject(map["TABLE_vrf" := JArray(seq(|response.tableVrf|, k requires 0 <= k < |response.tableVrf| && IsResponse(response) =>
                                        EncodeRowVrf(response.tableVrf[k])))])
  }

  lemma {:induction false} AllDecoded<T>(decode: Json -> Result<T>, items: seq<Json>, rows: seq<T>)
    requires |items| == |rows| && forall k :: 0 <= k < |items| ==> decode(items[k]) == Ok(rows[k])
    ensures DecodeAll(decode, items) == Ok(rows)
  {
    if items != [] {
      var n := |items| - 1;
      AllDecoded(decode, items[..n], rows[..n]);
      assert rows[..n] + [rows[n]] == rows;
    }
  }

  lemma EntryDecoded(moved: MovedFrom, ifname: Option<string>, hop: Option<string>)
    ensures var j := Entry(ifname, hop);
      && OptionalAt(j, "ifname") == Ok(ifname) && OptionalAt(j, "ipnexthop") == Ok(hop)
      && (ifname.None? || hop.Some? ==> DecodePathItem(moved, j) == Ok((ifname, hop)))
  {
  }

  lemma {:induction false} EntriesDecoded(moved: MovedFrom, items: seq<Json>, path: RowPath)
    requires |items| == |path.ifname| == |path.ipnexthop|
    requires forall k :: 0 <= k < |items| ==> DecodePathItem(moved, items[k]) == Ok((path.ifname[k], path.ipnexthop[k]))
    ensures DecodePathItems(moved, items) == Ok(path)
  {
    if items != [] {
      var n := |items| - 1;
      EntriesDecoded(moved, items[..n], RowPath(path.ipnexthop[..n], path.ifname[..n]));
      assert path.ifname[..n] + [path.ifname[n]] == path.ifname;
      assert path.ipnexthop[..n] + [path.ipnexthop[n]] == path.ipnexthop;
    }
  }

  lemma PathRoundTrip(moved: MovedFrom, path: RowPath)
    requires IsPath(path)
    ensures DecodeRowPath(moved, EncodeRowPath(path)) == Ok(path)
  {
    if |path.ifname| == 1 {
      EntryDecoded(moved, path.ifname[0], path.ipnexthop[0]);
      assert path == RowPath([path.ipnexthop[0]], [path.ifname[0]]);
    } else {
      var items := EncodeRowPath(path).fields["ROW_path"].items;
      forall k | 0 <= k < |items| ensures DecodePathItem(moved, items[k]) == Ok((path.ifname[k], path.ipnexthop[k])) {
        EntryDecoded(moved, path.ifname[k], path.ipnexthop[k]);
      }
      EntriesDecoded(moved, items, path);
    }
  }

  lemma PathsRoundTrip(moved: MovedFrom, row: RowPrefix)
    requires IsPrefixRow(row)
    ensures DecodeTable(PathDecoder(moved), JArray(EncodePaths(row))) == Ok(Some(row.tablePath))
  {
    var items := EncodePaths(row);
    forall k | 0 <= k < |items| ensures PathDecoder(moved)(items[k]) == Ok(row.tablePath[k]) {
      PathRoundTrip(moved, row.tablePath[k]);
    }
    AllDecoded(PathDecoder(moved), items, row.tablePath);
  }

  lemma PrefixRoundTrip(moved: MovedFrom, row: RowPrefix)
    requires IsPrefixRow(row)
    ensures DecodeRowPrefix(moved, EncodeRowPrefix(row)) == Ok(row)
  {
    var inner := EncodeRowPrefix(row).fields["ROW_prefix"];
    assert At(EncodeRowPrefix(row), "ROW_prefix") == Ok(inner);
    assert At(inner, "TABLE_path") == Ok(JArray(EncodePaths(row)));
    PathsRoundTrip(moved, row);
  }

  lemma AddrRoundTrip(moved: MovedFrom, row: RowAddr)
    requires IsAddrRow(row)
    ensures DecodeRowAddr(moved, EncodeRowAddr(row)) == Ok(row)
  {
    if row.tablePrefix.Some? {
      var items := EncodeRowAddr(row).fields["ROW_addrf"].fields["TABLE_prefix"].items;
      forall k | 0 <= k < |items| ensures PrefixDecoder(moved)(items[k]) == Ok(row.tablePrefix.value[k]) {
        PrefixRoundTrip(moved, row.tablePrefix.value[k]);
      }
      AllDecoded(PrefixDecoder(moved), items, row.tablePrefix.value);
    }
  }

  lemma VrfRoundTrip(moved: MovedFrom, row: RowVrf)
    requires IsVrfRow(row)
    ensures DecodeRowVrf(moved, EncodeRowVrf(row)) == Ok(row)
  {
    var items := EncodeRowVrf(row).fields["ROW_vrf"].fields["TABLE_addrf"].items;
    forall k | 0 <= k < |items| ensures AddrDecoder(moved)(items[k]) == Ok(row.tableAddrf[k]) {
      AddrRoundTrip(moved, row.tableAddrf[k]);
    }
    AllDecoded(AddrDecoder(moved), items, row.tableAddrf);
  }

  /** Any answer written in the switch's notation, its single rows bare or in arrays, decodes to
      itself. */
  lemma ResponseRoundTrip(moved: MovedFrom, response: RouteLookupResponse, j: Json)
    requires IsResponse(response) && SameAnswer(EncodeResponse(response), j)
    ensures DecodeResponse(moved, j) == Ok(response)
  {
    var items := EncodeResponse(response).fields["TABLE_vrf"].items;
    forall k | 0 <= k < |items| ensures VrfDecoder(moved)(items[k]) == Ok(response.tableVrf[k]) {
      VrfRoundTrip(moved, response.tableVrf[k]);
    }
    AllDecoded(VrfDecoder(moved), items, response.tableVrf);
    DecodingIgnoresTableShape(moved, EncodeResponse(response), j);
  }
}
