/** Discovery range authorisation: which requested networks may be scanned, and how many hosts that means. */
module Networks {
  import opened Wrappers
  import opened Cidr
  import Text

  datatype Refusal = InvalidCidr | NotIpv4 | NotPrivate | NoneGiven | OutsideAuthorized | TooManyHosts

  /** What the code takes from Python's `ipaddress`: how a text parses, and which networks are private. */
  datatype AddressBook = AddressBook(parse: string -> Option<Network>, isPrivate: Network -> bool)

  function ValidatePrivateNetwork(book: AddressBook, text: string): (r: Result<Network, Refusal>)
    ensures r.Ok? ==> r.value.family.V4? && book.isPrivate(r.value) && book.parse(Text.Strip(text)) == Some(r.value)
    ensures var n := book.parse(Text.Strip(text));
            && (r.Ok? <==> n.Some? && n.value.family.V4? && book.isPrivate(n.value))
            && (r == Err(InvalidCidr) <==> n.None?)
            && (r == Err(NotIpv4) <==> n.Some? && n.value.family.V6?)
            && (r == Err(NotPrivate) <==> n.Some? && n.value.family.V4? && !book.isPrivate(n.value))
  {
    match book.parse(Text.Strip(text))
    case None => Err(InvalidCidr)
    case Some(n) =>
      if n.family != V4 then Err(NotIpv4)
      else if !book.isPrivate(n) then Err(NotPrivate)
      else Ok(n)
  }

  predicate IsBlank(text: string) {
    Text.Strip(text) == []
  }

  /** The blank texts are those of white space alone. */
  lemma BlankExactly(text: string)
    ensures IsBlank(text) <==> Text.AllSpace(text)
  {
    var before, after := Text.StripExactly(text);
    if Text.Strip(text) != [] {
      assert text[|before|] == Text.Strip(text)[0];
    }
  }

  /** Blank entries are skipped; the first bad one decides the error. */
  function ParseItems(book: AddressBook, items: seq<string>): (r: Result<seq<Network>, Refusal>)
  {
    if items == [] then Ok([])
    else if IsBlank(items[0]) then ParseItems(book, items[1..])
    else match ValidatePrivateNetwork(book, items[0])
         case Err(e) => Err(e)
         case Ok(n) =>
           match ParseItems(book, items[1..])
           case Err(e) => Err(e)
           case Ok(rest) => Ok([n] + rest)
  }

  function ParseNetworks(book: AddressBook, items: seq<string>, allowEmpty: bool): Result<seq<Network>, Refusal> {
    match ParseItems(book, items)
    case Err(e) => Err(e)
    case Ok(networks) => if networks == [] && !allowEmpty then Err(NoneGiven) else Ok(networks)
  }

  /** The backend's count of usable hosts. */
  function UsableHosts(n: Network): int {
    if n.prefix >= 31 then n.Size() else if n.Size() >= 2 then n.Size() - 2 else 0
  }

  function EnsureAuthorized(book: AddressBook, requested: string, authorized: seq<string>, ignored: seq<string>,
                            maxHosts: int): Result<(Network, seq<Network>), Refusal>
  {
    match ValidatePrivateNetwork(book, requested)
    case Err(e) => Err(e)
    case Ok(network) =>
      match ParseNetworks(book, authorized, false)
      case Err(e) => Err(e)
      case Ok(parents) =>
        match ParseNetworks(book, ignored, true)
        case Err(e) => Err(e)
        case Ok(skipped) =>
          if !exists outer :: outer in parents && SubnetOf(network, outer) then Err(OutsideAuthorized)
          else if UsableHosts(network) > maxHosts then Err(TooManyHosts)
          else Ok((network, skipped))
  }

  predicate IsIgnored(a: Address, ignored: seq<Network>) {
    exists n :: n in ignored && Contains(n, a)
  }

  /** The limit a job asks for, as the agent caps it. */
  function HostCap(maxHosts: int): int {
    if maxHosts < 4096 then maxHosts else 4096
  }

  /** The agent's two checks before it starts a scan. */
  predicate AgentAccepts(n: Network, maxHosts: int) {
    n.Size() <= maxHosts + 2 && |Hosts(n)| <= maxHosts
  }

  /** An entry that the parser keeps, and the network it keeps for it. */
  predicate Parsed(book: AddressBook, text: string, n: Network) {
    !IsBlank(text) && ValidatePrivateNetwork(book, text) == Ok(n)
  }

  predicate Acceptable(book: AddressBook, text: string) {
    IsBlank(text) || ValidatePrivateNetwork(book, text).Ok?
  }

  /** Parsing succeeds exactly when every entry is blank or valid. */
  lemma {:induction false} ParseItemsSucceeds(book: AddressBook, items: seq<string>)
    ensures ParseItems(book, items).Ok? <==> forall text :: text in items ==> Acceptable(book, text)
  {
    if items != [] {
      ParseItemsSucceeds(book, items[1..]);
      assert forall text :: text in items <==> text == items[0] || text in items[1..];
      assert ParseItems(book, items).Ok? <==> Acceptable(book, items[0]) && ParseItems(book, items[1..]).Ok?;
    }
  }

  /** It then keeps exactly the networks of the valid entries. */
  lemma {:induction false} ParseItemsKeeps(book: AddressBook, items: seq<string>, n: Network)
    requires ParseItems(book, items).Ok?
    ensures n in ParseItems(book, items).value <==> exists text :: text in items && Parsed(book, text, n)
  {
    if items != [] {
      ParseItemsKeeps(book, items[1..], n);
      assert forall text :: text in items <==> text == items[0] || text in items[1..];
      assert n in ParseItems(book, items).value
        <==> Parsed(book, items[0], n) || n in ParseItems(book, items[1..]).value;
    }
  }

  /** Some authorised entry holds every address of the network. */
  ghost predicate Covered(book: AddressBook, n: Network, authorized: seq<string>) {
    exists text, outer :: text in authorized && Parsed(book, text, outer) && Inside(n, outer)
  }

  lemma CoveredExactly(book: AddressBook, n: Network, authorized: seq<string>)
    requires ParseItems(book, authorized).Ok?
    ensures var parents := ParseItems(book, authorized).value;
            Covered(book, n, authorized) <==> exists outer :: outer in parents && SubnetOf(n, outer)
  {
    var parents := ParseItems(book, authorized).value;
    if outer :| outer in parents && SubnetOf(n, outer) {
      ParseItemsKeeps(book, authorized, outer);
      SubnetIsInclusion(n, outer);
    }
    if text, outer :| text in authorized && Parsed(book, text, outer) && Inside(n, outer) {
      ParseItemsKeeps(book, authorized, outer);
      SubnetIsInclusion(n, outer);
    }
  }

  lemma UsableHostsAreHosts(n: Network)
    requires n.family.V4?
    ensures UsableHosts(n) == |Hosts(n)|
  {
    if n.prefix < 31 {
      WideHasFour(n);
    }
  }

  /** A request is accepted exactly when it is a private IPv4 network, both lists parse, one authorised
      entry holds every one of its addresses, and it has at most `maxHosts` hosts to probe. */
  lemma AuthorizedExactly(book: AddressBook, requested: string, authorized: seq<string>, ignored: seq<string>,
                          maxHosts: int)
    ensures EnsureAuthorized(book, requested, authorized, ignored, maxHosts).Ok? <==>
            && ValidatePrivateNetwork(book, requested).Ok?
            && ParseItems(book, authorized).Ok? && ParseItems(book, ignored).Ok?
            && Covered(book, ValidatePrivateNetwork(book, requested).value, authorized)
            && |Hosts(ValidatePrivateNetwork(book, requested).value)| <= maxHosts
    ensures EnsureAuthorized(book, requested, authorized, ignored, maxHosts).Ok? ==>
              EnsureAuthorized(book, requested, authorized, ignored, maxHosts).value
              == (ValidatePrivateNetwork(book, requested).value, ParseItems(book, ignored).value)
  {
    if ValidatePrivateNetwork(book, requested).Ok? {
      var n := ValidatePrivateNetwork(book, requested).value;
      UsableHostsAreHosts(n);
      if ParseItems(book, authorized).Ok? {
        CoveredExactly(book, n, authorized);
      }
    }
  }

  lemma {:induction false} AllBlankExactly(book: AddressBook, items: seq<string>)
    requires ParseItems(book, items).Ok?
    ensures ParseItems(book, items).value == [] <==> forall text :: text in items ==> IsBlank(text)
  {
    if items != [] && IsBlank(items[0]) {
      AllBlankExactly(book, items[1..]);
      assert forall text :: text in items <==> text == items[0] || text in items[1..];
    } else if items != [] {
      assert items[0] in items;
    }
  }

  /** Why a request is refused: first for its own sake, then for the first bad authorised entry or none at all,
      then for the first bad ignored entry, then for being outside, and last for its size. */
  lemma RefusedExactly(book: AddressBook, requested: string, authorized: seq<string>, ignored: seq<string>,
                       maxHosts: int)
    requires EnsureAuthorized(book, requested, authorized, ignored, maxHosts).Err?
    ensures var r, own := EnsureAuthorized(book, requested, authorized, ignored, maxHosts).error,
                          ValidatePrivateNetwork(book, requested);
            if own.Err? then r == own.error
            else if ParseItems(book, authorized).Err? then r == ParseItems(book, authorized).error
            else if forall text :: text in authorized ==> IsBlank(text) then r == NoneGiven
            else if ParseItems(book, ignored).Err? then r == ParseItems(book, ignored).error
            else if !Covered(book, own.value, authorized) then r == OutsideAuthorized
            else r == TooManyHosts && |Hosts(own.value)| > maxHosts
  {
    if ValidatePrivateNetwork(book, requested).Ok? && ParseItems(book, authorized).Ok? {
      UsableHostsAreHosts(ValidatePrivateNetwork(book, requested).value);
      CoveredExactly(book, ValidatePrivateNetwork(book, requested).value, authorized);
      AllBlankExactly(book, authorized);
    }
  }

  /** The first entry that is neither blank nor valid decides the error. */
  lemma {:induction false} FirstBadDecides(book: AddressBook, items: seq<string>, k: nat)
    requires k < |items| && !Acceptable(book, items[k]) && forall j :: 0 <= j < k ==> Acceptable(book, items[j])
    ensures ParseItems(book, items) == Err(ValidatePrivateNetwork(book, items[k]).error)
  {
    if k > 0 {
      assert Acceptable(book, items[0]);
      assert items[1..][k - 1] == items[k] && forall j :: 0 <= j < k - 1 ==> items[1..][j] == items[j + 1];
      FirstBadDecides(book, items[1..], k - 1);
    }
  }

  /** An address is skipped exactly when one of the valid ignore entries contains it. */
  lemma IgnoredExactly(book: AddressBook, ignored: seq<string>, a: Address)
    requires ParseItems(book, ignored).Ok?
    ensures IsIgnored(a, ParseItems(book, ignored).value) <==>
            exists text, n :: text in ignored && Parsed(book, text, n) && Contains(n, a)
  {
    if n :| n in ParseItems(book, ignored).value && Contains(n, a) {
      ParseItemsKeeps(book, ignored, n);
    }
    if text, n :| text in ignored && Parsed(book, text, n) && Contains(n, a) {
      ParseItemsKeeps(book, ignored, n);
    }
  }

  /** The agent starts a scan of an IPv4 network exactly when the backend's host formula admits it,
      for every limit, negative ones included. */
  lemma AgentAgreesWithBackend(n: Network, maxHosts: int)
    requires n.family.V4?
    ensures AgentAccepts(n, maxHosts) <==> UsableHosts(n) <= maxHosts
  {
    UsableHostsAreHosts(n);
    if n.prefix < 31 {
      WideHasFour(n);
    } else if n.prefix == 31 {
      assert Pow2(1) == 2 * Pow2(0);
    }
  }

  lemma {:induction false} Pow2Grows(a: nat, b: nat)
    requires a <= b
    ensures Pow2(a) <= Pow2(b)
    decreases b - a
  {
    if a < b {
      Pow2Grows(a + 1, b);
    }
  }

  lemma Pow2Of12()
    ensures Pow2(12) == 4096 && Pow2(13) == 8192
  {
    assert Pow2(2) == 4;
    Pow2Splits(2, 2);
    Pow2Splits(4, 4);
    Pow2Splits(8, 4);
    assert Pow2(13) == 2 * Pow2(12);
  }

  /** The agent's cap matters exactly for the networks wider than a /20. */
  lemma CapBindsExactly(n: Network)
    requires n.family.V4?
    ensures UsableHosts(n) > 4096 <==> n.prefix <= 19
  {
    Pow2Of12();
    if n.prefix <= 19 {
      Pow2Grows(13, 32 - n.prefix);
    } else {
      Pow2Grows(32 - n.prefix, 12);
    }
  }

  /** Under the agent's cap, an IPv4 network is scanned exactly when the backend would accept it under the
      smaller of its limit and 4096. */
  lemma CappedAgentAgrees(n: Network, maxHosts: int)
    requires n.family.V4?
    ensures AgentAccepts(n, HostCap(maxHosts)) <==> UsableHosts(n) <= maxHosts && n.prefix >= 20
  {
    AgentAgreesWithBackend(n, HostCap(maxHosts));
    CapBindsExactly(n);
  }

  /** Some authorised entry holds every address that a scan of the network probes. */
  ghost predicate ProbesCovered(book: AddressBook, n: Network, authorized: seq<string>) {
    exists text, outer :: text in authorized && Parsed(book, text, outer)
                          && forall k :: 0 <= k < |Hosts(n)| ==> Contains(outer, Address(V4, Hosts(n)[k]))
  }

  /** Every address that a scan of an accepted request probes lies in one authorised entry. The agent scans an
      accepted request exactly when its prefix is at least 20, whatever the limit of the policy. */
  lemma ProbesStayAuthorized(book: AddressBook, requested: string, authorized: seq<string>, ignored: seq<string>,
                             maxHosts: int)
    requires EnsureAuthorized(book, requested, authorized, ignored, maxHosts).Ok?
    ensures var n := EnsureAuthorized(book, requested, authorized, ignored, maxHosts).value.0;
            && ProbesCovered(book, n, authorized)
            && (AgentAccepts(n, HostCap(maxHosts)) <==> n.prefix >= 20)
  {
    var n := EnsureAuthorized(book, requested, authorized, ignored, maxHosts).value.0;
    AuthorizedExactly(book, requested, authorized, ignored, maxHosts);
    UsableHostsAreHosts(n);
    CappedAgentAgrees(n, maxHosts);
    var text, outer :| text in authorized && Parsed(book, text, outer) && Inside(n, outer);
    HostsAreInside(n);
  }

  /** On the network 10.0.0.0/19 and a limit of 65536 the two functions disagree: the backend's check admits it,
      and the agent's does not. */
  lemma AcceptedButRefused()
    ensures var n := Block(V4, 20480, 19);
            var book := AddressBook(_ => Some(n), _ => true);
            && EnsureAuthorized(book, "10.0.0.0/19", ["10.0.0.0/19"], [], 65536) == Ok((n, []))
            && !AgentAccepts(n, HostCap(65536))
  {
    var n: Network := Block(V4, 20480, 19);
    var book := AddressBook(_ => Some(n), _ => true);
    var text := "10.0.0.0/19";
    Pow2Of12();
    CappedAgentAgrees(n, 65536);
    assert !Text.IsSpace(text[0]) && !Text.IsSpace(text[|text| - 1]);
    assert Text.Strip(text) == text;
    assert ParseItems(book, [text][1..]) == Ok([]);
    assert ParseItems(book, [text]) == Ok([n] + []);
    assert n in [n] + [] && SubnetOf(n, n);
  }
}
