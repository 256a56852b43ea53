/** The command lines sent to the switch, and how the switch reads them. */
module SwitchText {
  import opened Common

  // ----- Words -----

  function FirstSpace(s: string): (k: nat)
    requires ' ' in s
    ensures k < |s| && s[k] == ' ' && ' ' !in s[..k]
  {
    if s[0] == ' ' then 0 else
      var k := FirstSpace(s[1..]) + 1;
      assert s[..k] == [s[0]] + s[1..][..k - 1];
      k
  }

  /** A line split at every space. */
  function Words(s: string): (ws: seq<string>)
    ensures |ws| >= 1
    decreases |s|
  {
    if ' ' !in s then [s]
    else var k := FirstSpace(s); [s[..k]] + Words(s[k + 1..])
  }

  predicate IsWord(s: string) { ' ' !in s }

  /** The text form of an IPv6 address: a word without a prefix length. */
  predicate IsAddr(s: string) { ' ' !in s && '/' !in s }

  lemma WordsCons(w: string, rest: string)
    requires IsWord(w)
    ensures Words(w + " " + rest) == [w] + Words(rest)
  {
    var s := w + " " + rest;
    assert s[|w|] == ' ';
    var k := FirstSpace(s);
    assert forall j :: 0 <= j < |w| ==> s[j] == w[j] && w[j] != ' ';
    assert forall j :: 0 <= j < k ==> s[..k][j] == s[j];
    assert k == |w|;
    assert s[..k] == w && s[k + 1..] == rest;
  }

  lemma {:induction false} WordsNonEmpty(s: string)
    ensures |Words(s)| >= 1
    ensures |Words(s)| == 1 <==> IsWord(s)
    ensures IsWord(s) ==> Words(s) == [s]
    decreases |s|
  {
    if ' ' in s {
      WordsNonEmpty(s[FirstSpace(s) + 1..]);
    }
  }

  // ----- Prefix texts -----

  function Digit(n: nat): char
    requires n < 10
  {
    "0123456789"[n]
  }

  /** Decimal text of a number, as std::to_string gives it. */
  function Decimal(n: nat): string {
    if n < 10 then [Digit(n)] else Decimal(n / 10) + [Digit(n % 10)]
  }

  function HostPrefix(addr: string): string { addr + "/128" }

  function PrefixText(addr: string, length: nat): string { addr + "/" + Decimal(length) }

  lemma {:induction false} DecimalInjective(m: nat, n: nat)
    requires Decimal(m) == Decimal(n)
    ensures m == n
  {
    var a, b := Decimal(m), Decimal(n);
    assert a[|a| - 1] == Digit(m % 10) && b[|b| - 1] == Digit(n % 10);
    DecimalNonEmpty(m / 10);
    DecimalNonEmpty(n / 10);
    if m >= 10 && n >= 10 {
      assert a[..|a| - 1] == Decimal(m / 10) && b[..|b| - 1] == Decimal(n / 10);
      DecimalInjective(m / 10, n / 10);
    }
  }

  lemma DecimalNonEmpty(n: nat)
    ensures |Decimal(n)| >= 1 && IsAddr(Decimal(n))
  {
  }

  /** Decimal digits without a superfluous zero in front. */
  predicate IsDecimal(s: string) {
    s != [] && (forall c :: c in s ==> '0' <= c <= '9') && (|s| > 1 ==> s[0] != '0')
  }

  /** The number that decimal digits spell, in base ten. */
  function DecimalValue(s: string): int {
    if s == [] then 0 else DecimalValue(s[..|s| - 1]) * 10 + (s[|s| - 1] as int - '0' as int)
  }

  /** The decimal text of a number reads back as the number. */
  lemma {:induction false} DecimalReads(n: nat)
    ensures IsDecimal(Decimal(n)) && DecimalValue(Decimal(n)) == n
    ensures n > 0 ==> Decimal(n)[0] != '0'
  {
    var s := Decimal(n);
    assert Digit(n % 10) as int - '0' as int == n % 10;
    if n < 10 {
      assert s[..|s| - 1] == [];
    } else {
      DecimalReads(n / 10);
      assert s[..|s| - 1] == Decimal(n / 10);
    }
  }

  /** The text is the address, a slash, and the prefix length in decimal. */
  predicate SpellsSubnet(text: string, addr: string, length: nat) {
    && |addr| < |text| && text[..|addr|] == addr && text[|addr|] == '/'
    && IsDecimal(text[|addr| + 1..]) && DecimalValue(text[|addr| + 1..]) == length
  }

  lemma PrefixTextSpells(addr: string, length: nat)
    ensures SpellsSubnet(PrefixText(addr, length), addr, length)
  {
    DecimalReads(length);
    assert PrefixText(addr, length)[|addr| + 1..] == Decimal(length);
  }

  lemma HostPrefixSpells(addr: string)
    ensures SpellsSubnet(HostPrefix(addr), addr, 128)
  {
    var digits := HostPrefix(addr)[|addr| + 1..];
    assert digits == ['1', '2', '8'];
    assert digits[..2] == ['1', '2'] && digits[..2][..1] == ['1'] && ['1'][..0] == [];
    assert DecimalValue(['1']) == 1 && DecimalValue(digits[..2]) == 12;
  }

  lemma SlashSplit(a: string, b: string, x: string, y: string)
    requires '/' !in a && '/' !in b && a + "/" + x == b + "/" + y
    ensures a == b && x == y
  {
    var s := a + "/" + x;
    assert s[|a|] == '/' && s[|b|] == '/';
    assert forall j :: 0 <= j < |a| ==> s[j] == a[j] && a[j] != '/';
    assert forall j :: 0 <= j < |b| ==> s[j] == b[j] && b[j] != '/';
    assert |a| == |b|;
    assert s[..|a|] == a && s[..|b|] == b;
    assert s[|a| + 1..] == x && s[|b| + 1..] == y;
  }

  /** Different prefixes, or different lengths, have different texts. */
  lemma PrefixTextInjective(a: string, m: nat, b: string, n: nat)
    requires IsAddr(a) && IsAddr(b) && PrefixText(a, m) == PrefixText(b, n)
    ensures a == b && m == n
  {
    SlashSplit(a, b, Decimal(m), Decimal(n));
    DecimalInjective(m, n);
  }

  // ----- Command builders -----

  function CreateApplyRouteIpv6Command(srcSubnet: string, dstAddr: string): string {
    "ipv6 route " + srcSubnet + " " + dstAddr
  }

  function CreateRemoveRouteIpv6Command(srcSubnet: string, dstAddr: string): string {
    "no ipv6 route " + srcSubnet + " " + dstAddr
  }

  function CreateMappingVlanAddrToVlanIdCommand(vlanAddr: string): string {
    "show ipv6 route " + vlanAddr
  }

  function CreateRemoveNDCacheEntryIpv6Command(vlanIfName: string): string {
    "clear ipv6 neighbor " + vlanIfName + " force-delete"
  }

  // ----- The switch -----

  /** A static route: a prefix and an interface name or next hop. */
  datatype Route = Route(prefix: string, dest: string)

  type Table = set<Route>

  /** What a command line does to the static routes. */
  function Execute(command: string, table: Table): Table {
    var w := Words(command);
    if |w| == 4 && w[..2] == ["ipv6", "route"] then table + {Route(w[2], w[3])}
    else if |w| == 5 && w[..3] == ["no", "ipv6", "route"] then table - {Route(w[3], w[4])}
    else table
  }

  /** The prefix that a show command asks about; empty for any other command line. */
  function QueriedPrefix(command: string): string {
    var w := Words(command);
    if |w| == 4 && w[..3] == ["show", "ipv6", "route"] then w[3] else ""
  }

  /** The interface whose neighbour cache a command clears, if it is such a command. */
  function ClearedInterface(command: string): Option<string> {
    var w := Words(command);
    if |w| == 5 && w[..3] == ["clear", "ipv6", "neighbor"] && w[4] == "force-delete" then Some(w[3]) else None
  }

  lemma Concat(a: string, b: string, c: string)
    ensures (a + b) + c == a + (b + c)
  {
  }

  /** A line that begins with two fixed words. */
  lemma WordsAfterTwo(head: string, w1: string, w2: string, rest: string)
    requires head == w1 + " " + w2 + " " && IsWord(w1) && IsWord(w2)
    ensures Words(head + rest) == [w1, w2] + Words(rest)
  {
    Concat(w1 + " " + w2, " ", rest);
    Concat(w1 + " ", w2, " " + rest);
    Concat(w2, " ", rest);
    WordsCons(w1, w2 + " " + rest);
    WordsCons(w2, rest);
  }

  lemma WordsAfterThree(head: string, w1: string, w2: string, w3: string, rest: string)
    requires head == w1 + " " + w2 + " " && IsWord(w1) && IsWord(w2) && IsWord(w3)
    ensures Words(head + w3 + " " + rest) == [w1, w2, w3] + Words(rest)
  {
    assert head + w3 + " " + rest == head + (w3 + " " + rest);
    WordsAfterTwo(head, w1, w2, w3 + " " + rest);
    WordsCons(w3, rest);
  }

  lemma Heads()
    ensures "ipv6 route " == "ipv6" + " " + "route" + " "
    ensures "no ipv6 route " == "no" + " " + "ipv6 route "
    ensures "show ipv6 route " == "show" + " " + "ipv6" + " " + "route" + " "
    ensures "clear ipv6 neighbor " == "clear" + " " + "ipv6" + " " + "neighbor" + " "
    ensures IsWord("ipv6") && IsWord("route") && IsWord("no") && IsWord("show") && IsWord("clear") && IsWord("neighbor")
  {
  }

  lemma ApplyWords(src: string, dst: string)
    requires IsWord(src)
    ensures Words(CreateApplyRouteIpv6Command(src, dst)) == ["ipv6", "route", src] + Words(dst)
  {
    Heads();
    WordsAfterThree("ipv6 route ", "ipv6", "route", src, dst);
  }

  lemma RemoveWords(src: string, dst: string)
    requires IsWord(src)
    ensures Words(CreateRemoveRouteIpv6Command(src, dst)) == ["no", "ipv6", "route", src] + Words(dst)
  {
    Heads();
    var rest := CreateApplyRouteIpv6Command(src, dst);
    assert CreateRemoveRouteIpv6Command(src, dst) == "no" + " " + rest;
    WordsCons("no", rest);
    ApplyWords(src, dst);
  }

  /** An apply command for a prefix adds exactly the route named, if the destination is one
      word, and otherwise is not a command the switch accepts. */
  lemma ApplyExecutes(src: string, dst: string, table: Table)
    requires IsWord(src)
    ensures Execute(CreateApplyRouteIpv6Command(src, dst), table)
         == if IsWord(dst) then table + {Route(src, dst)} else table
  {
    ApplyWords(src, dst);
    WordsNonEmpty(dst);
  }

  lemma RemoveExecutes(src: string, dst: string, table: Table)
    requires IsWord(src)
    ensures Execute(CreateRemoveRouteIpv6Command(src, dst), table)
         == if IsWord(dst) then table - {Route(src, dst)} else table
  {
    RemoveWords(src, dst);
    WordsNonEmpty(dst);
  }

  lemma WordsAfterPrefix(u: string, v: string, w: string, rest: string)
    requires IsWord(u) && IsWord(v) && IsWord(w)
    ensures Words(u + " " + v + " " + w + " " + rest) == [u] + ([v, w] + Words(rest))
  {
    var tail := v + " " + w + " " + rest;
    assert u + " " + v + " " + w + " " + rest == u + " " + tail;
    WordsCons(u, tail);
    WordsAfterTwo(v + " " + w + " ", v, w, rest);
  }

  lemma ClearWords(vlanIfName: string)
    ensures Words(CreateRemoveNDCacheEntryIpv6Command(vlanIfName))
         == ["clear"] + (["ipv6", "neighbor"] + Words(vlanIfName + " force-delete"))
  {
    Heads();
    WordsAfterPrefix("clear", "ipv6", "neighbor", vlanIfName + " force-delete");
    Concat("clear ipv6 neighbor ", vlanIfName, " force-delete");
  }

  lemma TwoWords(v: string, w: string)
    requires IsWord(v) && IsWord(w)
    ensures Words(v + (" " + w)) == [v, w]
  {
    Concat(v, " ", w);
    WordsCons(v, w);
    WordsNonEmpty(w);
  }

  lemma Force()
    ensures " force-delete" == " " + "force-delete" && IsWord("force-delete")
  {
  }

  lemma ForceWords(vlanIfName: string, force: string)
    requires IsWord(vlanIfName) && force == " " + "force-delete" && IsWord("force-delete")
    ensures Words(vlanIfName + force) == [vlanIfName, "force-delete"]
  {
    TwoWords(vlanIfName, "force-delete");
  }

  /** The neighbour-cache command clears the cache of the named interface. */
  lemma ClearClears(vlanIfName: string)
    requires IsWord(vlanIfName)
    ensures ClearedInterface(CreateRemoveNDCacheEntryIpv6Command(vlanIfName)) == Some(vlanIfName)
  {
    ClearWords(vlanIfName);
    Force();
    ForceWords(vlanIfName, " force-delete");
    var w := Words(CreateRemoveNDCacheEntryIpv6Command(vlanIfName));
    assert w == ["clear", "ipv6", "neighbor", vlanIfName, "force-delete"];
  }

  lemma OtherWord(command: string, table: Table)
    requires |Words(command)[0]| > 0 && Words(command)[0][0] == 'c'
    ensures Execute(command, table) == table
  {
    var w := Words(command);
    if |w| == 4 { assert w[..2][0] == w[0]; }
    if |w| == 5 { assert w[..3][0] == w[0]; }
  }

  lemma ClearLeavesRoutes(vlanIfName: string, table: Table)
    ensures Execute(CreateRemoveNDCacheEntryIpv6Command(vlanIfName), table) == table
  {
    ClearWords(vlanIfName);
    OtherWord(CreateRemoveNDCacheEntryIpv6Command(vlanIfName), table);
  }

  lemma ShowWords(prefix: string)
    ensures Words(CreateMappingVlanAddrToVlanIdCommand(prefix)) == ["show", "ipv6", "route"] + Words(prefix)
  {
    Heads();
    WordsAfterThree("show ipv6 ", "show", "ipv6", "route", prefix);
    assert "show ipv6 route " + prefix == "show ipv6 " + "route" + " " + prefix;
  }

  lemma ShowAsks(prefix: string)
    requires IsWord(prefix)
    ensures QueriedPrefix(CreateMappingVlanAddrToVlanIdCommand(prefix)) == prefix
  {
    ShowWords(prefix);
    WordsNonEmpty(prefix);
  }
}
