/** The decoded answer to a route lookup and what the callbacks pick out of it. */
module RouteLookup {
  import opened Common

  datatype RowPath = RowPath(ipnexthop: seq<Option<string>>, ifname: seq<Option<string>>)
  datatype RowPrefix = RowPrefix(ipprefix: string, attached: bool, tablePath: seq<RowPath>)
  datatype RowAddr = RowAddr(addrf: string, tablePrefix: Option<seq<RowPrefix>>)
  datatype RowVrf = RowVrf(vrfNameOut: string, tableAddrf: seq<RowAddr>)
  datatype RouteLookupResponse = RouteLookupResponse(tableVrf: seq<RowVrf>)

  function Lower(c: char): char {
    if 'A' <= c <= 'Z' then c - 'A' + 'a' else c
  }

  /** The regular expression `(vlan)(\d+)`, ignoring case, on the whole name. */
  predicate IsValidVlanName(name: string) {
    && |name| > 4
    && Lower(name[0]) == 'v' && Lower(name[1]) == 'l' && Lower(name[2]) == 'a' && Lower(name[3]) == 'n'
    && forall k :: 4 <= k < |name| ==> '0' <= name[k] <= '9'
  }

  /** The test of a search that takes any present value. */
  predicate AnyName(name: string) { true }

  /** The first present value that satisfies the test, as std::find_if finds it. */
  function FindFirst(values: seq<Option<string>>, test: string -> bool): Option<string> {
    if values == [] then None
    else if values[0].Some? && test(values[0].value) then values[0]
    else FindFirst(values[1..], test)
  }

  /** The single path of the answer.  A table of the wrong size is an error; so is a missing
      or empty `TABLE_prefix`, of which the code reads the first row regardless; a longer one
      is read at its first row. */
  function ThePath(response: RouteLookupResponse): Option<RowPath> {
    if |response.tableVrf| != 1 then None
    else if |response.tableVrf[0].tableAddrf| != 1 then None
    else
      var prefixes := response.tableVrf[0].tableAddrf[0].tablePrefix;
      if prefixes.None? || prefixes.value == [] then None
      else if |prefixes.value[0].tablePath| != 1 then None
      else Some(prefixes.value[0].tablePath[0])
  }

  function Interface(response: RouteLookupResponse): Option<string> {
    var path := ThePath(response);
    if path.None? then None else FindFirst(path.value.ifname, AnyName)
  }

  function VlanInterface(response: RouteLookupResponse): Option<string> {
    var path := ThePath(response);
    if path.None? then None else FindFirst(path.value.ifname, IsValidVlanName)
  }

  function NextHop(response: RouteLookupResponse): Option<string> {
    var path := ThePath(response);
    if path.None? then None else FindFirst(path.value.ipnexthop, AnyName)
  }

  // ----- The same on the rows of an answer -----

  /** The answer has one VRF with one address row, and a prefix row to begin with whose only path
      is the given one. */
  predicate HasPath(response: RouteLookupResponse, path: RowPath) {
    && |response.tableVrf| == 1 && |response.tableVrf[0].tableAddrf| == 1
    && response.tableVrf[0].tableAddrf[0].tablePrefix.Some?
    && |response.tableVrf[0].tableAddrf[0].tablePrefix.value| >= 1
    && response.tableVrf[0].tableAddrf[0].tablePrefix.value[0].tablePath == [path]
  }

  /** The name stands in the list and nothing stands before it. */
  predicate IsFirstPresent(values: seq<Option<string>>, name: string) {
    exists k :: 0 <= k < |values| && values[k] == Some(name) && forall j :: 0 <= j < k ==> values[j].None?
  }

  /** The name is a VLAN's and stands in the list, and no VLAN's name stands before it. */
  predicate IsFirstVlan(values: seq<Option<string>>, name: string) {
    exists k :: 0 <= k < |values| && values[k] == Some(name) && IsValidVlanName(name) &&
      forall j :: 0 <= j < k && values[j].Some? ==> !IsValidVlanName(values[j].value)
  }

  lemma ThePathIs(response: RouteLookupResponse, path: RowPath)
    ensures HasPath(response, path) <==> ThePath(response) == Some(path)
  {
    if HasPath(response, path) {
      assert ThePath(response) == Some([path][0]);
    }
  }

  lemma FirstPresent(values: seq<Option<string>>, name: string)
    ensures IsFirstPresent(values, name) <==> FindFirst(values, AnyName) == Some(name)
  {
    FindFirstIsFirst(values, AnyName);
  }

  lemma FirstVlan(values: seq<Option<string>>, name: string)
    ensures IsFirstVlan(values, name) <==> FindFirst(values, IsValidVlanName) == Some(name)
  {
    FindFirstIsFirst(values, IsValidVlanName);
  }

  /** A relay's interface is the first interface name of the path, whatever its next hops; an
      expiring address's the first that is a VLAN's; an expiring prefix's destination the first
      next hop, whatever the interfaces. */
  lemma AnswerNames(response: RouteLookupResponse, path: RowPath, name: string)
    requires HasPath(response, path)
    ensures Interface(response) == Some(name) <==> IsFirstPresent(path.ifname, name)
    ensures VlanInterface(response) == Some(name) <==> IsFirstVlan(path.ifname, name)
    ensures NextHop(response) == Some(name) <==> IsFirstPresent(path.ipnexthop, name)
  {
    ThePathIs(response, path);
    FirstPresent(path.ifname, name);
    FirstVlan(path.ifname, name);
    FirstPresent(path.ipnexthop, name);
  }

  lemma {:induction false} FindFirstIsFirst(values: seq<Option<string>>, test: string -> bool)
    ensures var r := FindFirst(values, test);
      if r.None? then forall k :: 0 <= k < |values| && values[k].Some? ==> !test(values[k].value)
      else exists k :: 0 <= k < |values| && values[k] == r && test(r.value) &&
             forall j :: 0 <= j < k && values[j].Some? ==> !test(values[j].value)
  {
    if values != [] && !(values[0].Some? && test(values[0].value)) {
      FindFirstIsFirst(values[1..], test);
      assert forall k :: 0 < k < |values| ==> values[k] == values[1..][k - 1];
      var r := FindFirst(values, test);
      if r.Some? {
        var k :| 0 <= k < |values[1..]| && values[1..][k] == r && test(r.value) &&
          forall j :: 0 <= j < k && values[1..][j].Some? ==> !test(values[1..][j].value);
        assert values[k + 1] == r;
      }
    } else if values != [] {
      assert values[0] == FindFirst(values, test);
    }
  }

  predicate OnlyDigits(s: string) {
    forall c :: c in s ==> '0' <= c <= '9'
  }

  /** A name is a VLAN's exactly if it is `vlan`, each letter in either case, and then one digit or
      more. */
  lemma VlanNames(name: string)
    ensures IsValidVlanName(name) <==>
      && |name| >= 5
      && name[0] in {'v', 'V'} && name[1] in {'l', 'L'} && name[2] in {'a', 'A'} && name[3] in {'n', 'N'}
      && OnlyDigits(name[4..])
  {
    if |name| >= 5 {
      var digits := name[4..];
      assert OnlyDigits(digits) <==> forall k :: 4 <= k < |name| ==> '0' <= name[k] <= '9' by {
        assert forall k :: 0 <= k < |digits| ==> digits[k] in digits && digits[k] == name[4 + k];
        assert forall k :: 4 <= k < |name| ==> name[k] == digits[k - 4] && name[k] in digits;
      }
    }
  }

  lemma VlanNameIsWord(name: string)
    requires IsValidVlanName(name)
    ensures ' ' !in name && '/' !in name
  {
    forall k | 0 <= k < |name| ensures name[k] != ' ' && name[k] != '/' {
      if k < 4 {
        assert k == 0 || k == 1 || k == 2 || k == 3;
      }
    }
  }
}
