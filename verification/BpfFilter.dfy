/**
  The capture filter: the text that BuildBPFFilter composes (internal/config/utils.go), and the
  filter language of pcap-filter(7) that the text is written in, where `and` and `or` have equal
  precedence and associate to the left.
 */
module BpfFilter {
  import opened Wrappers
  import opened Net
  import opened Sequences
  import opened Text

  /** One address of an interface as libpcap reports it. */
  datatype InterfaceAddress = InterfaceAddress(ip: Bytes, netmask: Bytes)

  // ---------- prefixes ----------

  /** 2^(8-k), the number of values that a byte with k fixed leading bits takes. */
  function HostSize(k: nat): nat
    requires k <= 8
  {
    if k == 0 then 256 else if k == 1 then 128 else if k == 2 then 64 else if k == 3 then 32
    else if k == 4 then 16 else if k == 5 then 8 else if k == 6 then 4 else if k == 7 then 2 else 1
  }

  /** How many of the first n bits of an address lie in byte i. */
  function BitsIn(n: nat, i: nat): (k: nat)
    ensures k <= 8
  {
    if n <= 8 * i then 0 else if n < 8 * i + 8 then n - 8 * i else 8
  }

  /** The byte that a mask byte of k leading ones leaves of b. */
  function MaskByte(b: Byte, k: nat): Byte
    requires k <= 8
  {
    b - b % HostSize(k)
  }

  /** net.IP.Mask with net.CIDRMask(n, 32). */
  function Masked(a: Address, n: nat): Address {
    [MaskByte(a[0], BitsIn(n, 0)), MaskByte(a[1], BitsIn(n, 1)), MaskByte(a[2], BitsIn(n, 2)),
     MaskByte(a[3], BitsIn(n, 3))]
  }

  /** net.IPMask.Size: the number of leading ones of a mask, or 0 when a one follows a zero. */
  function MaskSize(mask: Bytes): nat {
    match LeadingOnes(mask) case None => 0 case Some(n) => n
  }

  function LeadingOnes(mask: Bytes): Option<nat> {
    if mask == [] then Some(0)
    else if mask[0] == 255 then
      match LeadingOnes(mask[1..]) case None => None case Some(n) => Some(8 + n)
    else if exists k | 0 <= k < 8 :: mask[0] == 256 - HostSize(k) then
      if forall i | 1 <= i < |mask| :: mask[i] == 0
      then Some(OnesOfByte(mask[0]))
      else None
    else None
  }

  function OnesOfByte(b: Byte): (k: nat)
    ensures k < 8
    ensures (exists j | 0 <= j < 8 :: b == 256 - HostSize(j)) ==> b == 256 - HostSize(k)
  {
    if b == 128 then 1 else if b == 192 then 2 else if b == 224 then 3 else if b == 240 then 4
    else if b == 248 then 5 else if b == 252 then 6 else if b == 254 then 7 else 0
  }

  /** The size of a mask is the number of its leading ones, all other bits being zero. */
  lemma {:induction false} LeadingOnesIsPrefixLength(mask: Bytes, n: nat)
    requires n <= 8 * |mask|
    ensures LeadingOnes(mask) == Some(n) <==> forall i | 0 <= i < |mask| :: mask[i] == 256 - HostSize(BitsIn(n, i))
  {
    if mask != [] {
      if mask[0] == 255 {
        if n >= 8 {
          LeadingOnesIsPrefixLength(mask[1..], n - 8);
          assert forall i | 0 <= i < |mask| - 1 :: mask[1..][i] == mask[i + 1];
          assert forall i | 1 <= i < |mask| :: BitsIn(n, i) == BitsIn(n - 8, i - 1);
          assert forall i | 1 <= i < |mask| :: mask[i] == mask[1..][i - 1];
        } else {
          assert mask[0] != 256 - HostSize(BitsIn(n, 0));
        }
      } else {
        assert n < 8 ==> forall i | 1 <= i < |mask| :: BitsIn(n, i) == 0;
        assert n >= 8 ==> BitsIn(n, 0) == 8;
      }
    }
  }

  // ---------- the builder ----------

  /** GetNetwork: a sixteen-byte mask of more than 32 ones has no four-byte counterpart, and prints as nil. */
  function GetNetwork(addr: InterfaceAddress): Option<string> {
    match To4(addr.ip)
    case None => None
    case Some(ip4) =>
      var size := MaskSize(addr.netmask);
      Some((if size <= 32 then Quad(Masked(ip4, size)) else "<nil>") + "/" + Decimal(size))
  }

  function PortText(port: int): string { "udp port " + SignedDecimal(port) }

  function PortTexts(ports: seq<int>): seq<string> {
    seq(|ports|, i requires 0 <= i < |ports| => PortText(ports[i]))
  }

  /** An address contributes when it is IPv4 and its mask has a one. */
  predicate Contributes(addr: InterfaceAddress) {
    To4(addr.ip).Some? && MaskSize(addr.netmask) > 0
  }

  function NetworkTexts(addresses: seq<InterfaceAddress>): seq<string> {
    if addresses == [] then []
    else
      var addr, init := addresses[|addresses| - 1], addresses[..|addresses| - 1];
      NetworkTexts(init) + if Contributes(addr) then ["src net " + GetNetwork(addr).value] else []
  }

  function Grouped(texts: seq<string>): string {
    if |texts| > 1 then "(" + Join(texts, " or ") + ")" else Join(texts, " or ")
  }

  function FilterText(ports: seq<int>, addresses: seq<InterfaceAddress>): string {
    if ports == [] then ""
    else if NetworkTexts(addresses) == [] then Grouped(PortTexts(ports))
    else Grouped(PortTexts(ports)) + " and " + Grouped(NetworkTexts(addresses))
  }

  method BuildBPFFilter(ports: seq<int>, addresses: seq<InterfaceAddress>) returns (filter: string)
    ensures filter == FilterText(ports, addresses)
    ensures ports == [] ==> filter == ""
  {
    if |ports| < 1 { return ""; }
    var portFilters: seq<string> := [];
    for i := 0 to |ports|
      invariant portFilters == PortTexts(ports)[..i]
    {
      portFilters := portFilters + ["udp port " + SignedDecimal(ports[i])];
    }
    assert portFilters == PortTexts(ports);
    filter := Join(portFilters, " or ");
    if |portFilters| > 1 {
      filter := "(" + filter + ")";
    }

    var networks: seq<string> := [];
    for i := 0 to |addresses|
      invariant networks == NetworkTexts(addresses[..i])
    {
      assert addresses[..i + 1][..i] == addresses[..i];
      var network := GetNetwork(addresses[i]);
      if network.Some? {
        if MaskSize(addresses[i].netmask) > 0 {
          networks := networks + ["src net " + network.value];
        }
      }
    }
    assert addresses[..|addresses|] == addresses;
    if |networks| >= 1 {
      var networkFilter := Join(networks, " or ");
      if |networks| > 1 {
        networkFilter := "(" + networkFilter + ")";
      }
      filter := filter + " and " + networkFilter;
    }
  }

  // ---------- the filter language ----------

  datatype Token = Word(text: string) | LeftParen | RightParen

  datatype Expr = Port(port: Word) | SourceNet(net: Address, length: nat) | And(left: Expr, right: Expr)
                | Or(left: Expr, right: Expr)

  /** What a filter can see of a captured packet. */
  datatype Seen = Seen(isUdp: bool, srcPort: Word, dstPort: Word, isIpv4: bool, src: Address)

  predicate Accepts(e: Expr, p: Seen) {
    match e
    case Port(port) => p.isUdp && (p.srcPort == port || p.dstPort == port)
    case SourceNet(net, length) => p.isIpv4 && Masked(p.src, length) == net
    case And(l, r) => Accepts(l, p) && Accepts(r, p)
    case Or(l, r) => Accepts(l, p) || Accepts(r, p)
  }

  predicate IsWordChar(c: char) { c != ' ' && c != '(' && c != ')' }

  function WordLength(s: string): (n: nat)
    ensures n <= |s|
    ensures forall i | 0 <= i < n :: IsWordChar(s[i])
    ensures n < |s| ==> !IsWordChar(s[n])
  {
    if s == "" || !IsWordChar(s[0]) then 0 else 1 + WordLength(s[1..])
  }

  function Lex(s: string): seq<Token>
    decreases |s|
  {
    if s == "" then []
    else if s[0] == ' ' then Lex(s[1..])
    else if s[0] == '(' then [LeftParen] + Lex(s[1..])
    else if s[0] == ')' then [RightParen] + Lex(s[1..])
    else [Word(s[..WordLength(s)])] + Lex(s[WordLength(s)..])
  }

  /** A CIDR prefix; libpcap refuses one with a bit set behind the prefix. */
  function ParsePrefix(s: string): Option<Expr> {
    match Cut(s, '/')
    case None => None
    case Some((quad, length)) =>
      match (ParseQuad(quad), ParseDecimal(length))
      case (Some(a), Some(n)) => if n <= 32 && Masked(a, n) == a then Some(SourceNet(a, n)) else None
      case _ => None
  }

  /** A primitive: two qualifiers and what they qualify. */
  function Primitive(kind: string, qualifier: string, id: string): Option<Expr> {
    if kind == "udp" && qualifier == "port" then
      match ParseDecimal(id)
      case None => None
      case Some(n) => if n < 65536 then Some(Port(n)) else None
    else if kind == "src" && qualifier == "net" then ParsePrefix(id)
    else None
  }

  function ParseTerm(ts: seq<Token>): (r: Option<(Expr, seq<Token>)>)
    ensures r.Some? ==> |r.value.1| < |ts|
    decreases |ts|, 0
  {
    if ts == [] then None
    else if ts[0] == LeftParen then
      match ParseExpr(ts[1..])
      case None => None
      case Some((e, rest)) => if rest != [] && rest[0] == RightParen then Some((e, rest[1..])) else None
    else if |ts| >= 3 && ts[0].Word? && ts[1].Word? && ts[2].Word? then
      match Primitive(ts[0].text, ts[1].text, ts[2].text)
      case None => None
      case Some(e) => Some((e, ts[3..]))
    else None
  }

  function ParseExpr(ts: seq<Token>): (r: Option<(Expr, seq<Token>)>)
    ensures r.Some? ==> |r.value.1| < |ts|
    decreases |ts|, 2
  {
    match ParseTerm(ts)
    case None => None
    case Some((e, rest)) => ParseMore(e, rest)
  }

  /** Whatever stands to the left of an operator is its left operand. */
  function ParseMore(left: Expr, ts: seq<Token>): (r: Option<(Expr, seq<Token>)>)
    ensures r.Some? ==> |r.value.1| <= |ts|
    decreases |ts|, 1
  {
    if ts != [] && (ts[0] == Word("and") || ts[0] == Word("or")) then
      match ParseTerm(ts[1..])
      case None => None
      case Some((right, rest)) => ParseMore(if ts[0] == Word("and") then And(left, right) else Or(left, right), rest)
    else Some((left, ts))
  }

  function Parse(s: string): Option<Expr> {
    match ParseExpr(Lex(s))
    case None => None
    case Some((e, rest)) => if rest == [] then Some(e) else None
  }

  // ---------- the text and its tokens ----------

  /** A primitive of the builder, before it is known to be one of the language. */
  datatype Atom = Atom(kind: string, qualifier: string, id: string) {
    function Text(): string { kind + (" " + (qualifier + (" " + id))) }

    function Tokens(): seq<Token> { [Word(kind), Word(qualifier), Word(id)] }

    function Meaning(): Option<Expr> { Primitive(kind, qualifier, id) }

    predicate IsLexable() { IsWord(kind) && IsWord(qualifier) && IsWord(id) }
  }

  predicate IsWord(s: string) { s != "" && forall i | 0 <= i < |s| :: IsWordChar(s[i]) }

  predicate EndsWord(s: string) { s == "" || !IsWordChar(s[0]) }

  lemma {:induction false} WordLengthOf(w: string, rest: string)
    requires (forall i | 0 <= i < |w| :: IsWordChar(w[i])) && EndsWord(rest)
    ensures WordLength(w + rest) == |w|
  {
    if w == "" {
      assert w + rest == rest;
    } else {
      assert (w + rest)[1..] == w[1..] + rest;
      WordLengthOf(w[1..], rest);
    }
  }

  lemma LexWord(w: string, rest: string)
    requires IsWord(w) && EndsWord(rest)
    ensures Lex(w + rest) == [Word(w)] + Lex(rest)
  {
    WordLengthOf(w, rest);
    assert (w + rest)[0] == w[0];
    assert (w + rest)[..|w|] == w && (w + rest)[|w|..] == rest;
  }

  lemma LexWordSpace(w: string, rest: string)
    requires IsWord(w)
    ensures Lex(w + (" " + rest)) == [Word(w)] + Lex(rest)
  {
    LexWord(w, " " + rest);
    assert (" " + rest)[1..] == rest;
  }

  lemma LexAtom(a: Atom, rest: string)
    requires a.IsLexable() && EndsWord(rest)
    ensures Lex(a.Text() + rest) == a.Tokens() + Lex(rest)
  {
    var s2 := a.id + rest;
    var s1 := a.qualifier + (" " + s2);
    Regroup4(a.kind, " ", a.qualifier, " ", a.id, rest);
    LexWordSpace(a.kind, s1);
    LexWordSpace(a.qualifier, s2);
    LexWord(a.id, rest);
    Regroup3([Word(a.kind)], [Word(a.qualifier)], [Word(a.id)], Lex(rest));
    assert [Word(a.kind)] + ([Word(a.qualifier)] + [Word(a.id)]) == a.Tokens();
  }

  /** An operator between two spaces. */
  lemma LexOperator(operator: string, rest: string)
    requires IsWord(operator)
    ensures Lex(" " + (operator + (" " + rest))) == [Word(operator)] + Lex(rest)
  {
    var s := operator + (" " + rest);
    assert (" " + s)[1..] == s;
    LexWordSpace(operator, rest);
  }

  function Texts(atoms: seq<Atom>): seq<string> {
    seq(|atoms|, i requires 0 <= i < |atoms| => atoms[i].Text())
  }

  function OrTokens(atoms: seq<Atom>): seq<Token> {
    if atoms == [] then [] else [Word("or")] + atoms[0].Tokens() + OrTokens(atoms[1..])
  }

  function GroupTokens(atoms: seq<Atom>): seq<Token>
    requires atoms != []
  {
    var list := atoms[0].Tokens() + OrTokens(atoms[1..]);
    if |atoms| > 1 then [LeftParen] + list + [RightParen] else list
  }

  predicate AllLexable(atoms: seq<Atom>) { forall i | 0 <= i < |atoms| :: atoms[i].IsLexable() }

  lemma {:induction false} LexJoin(atoms: seq<Atom>, rest: string)
    requires atoms != [] && AllLexable(atoms) && EndsWord(rest)
    ensures Lex(Join(Texts(atoms), " or ") + rest) == atoms[0].Tokens() + OrTokens(atoms[1..]) + Lex(rest)
  {
    hide Lex;
    var texts, more := Texts(atoms), Lex(rest);
    if |atoms| == 1 {
      LexAtom(atoms[0], rest);
      assert atoms[0].Tokens() + OrTokens(atoms[1..]) == atoms[0].Tokens();
    } else {
      var tail := Join(texts[1..], " or ") + rest;
      JoinStep(texts, rest);
      LexAtom(atoms[0], " " + ("or" + (" " + tail)));
      LexOperator("or", tail);
      assert texts[1..] == Texts(atoms[1..]);
      LexJoin(atoms[1..], rest);
      OrTokensStep(atoms);
      Regroup3(atoms[0].Tokens(), [Word("or")], OrTail(atoms), more);
    }
  }

  function OrTail(atoms: seq<Atom>): seq<Token>
    requires |atoms| > 1
  {
    atoms[1].Tokens() + OrTokens(atoms[1..][1..])
  }

  lemma OrTokensStep(atoms: seq<Atom>)
    requires |atoms| > 1
    ensures OrTokens(atoms[1..]) == [Word("or")] + OrTail(atoms)
  {
    Enclose([Word("or")], atoms[1].Tokens(), OrTokens(atoms[1..][1..]), []);
    assert [Word("or")] + atoms[1].Tokens() + OrTokens(atoms[1..][1..]) + [] == OrTokens(atoms[1..]);
    assert OrTail(atoms) + [] == OrTail(atoms);
    assert OrTokens(atoms[1..][1..]) + [] == OrTokens(atoms[1..][1..]);
  }

  lemma JoinStep(texts: seq<string>, rest: string)
    requires |texts| > 1
    ensures Join(texts, " or ") + rest == texts[0] + (" " + ("or" + (" " + (Join(texts[1..], " or ") + rest))))
  {
    OperatorText();
    Enclose(texts[0], " or ", Join(texts[1..], " or "), rest);
    Regroup3(" ", "or", " ", Join(texts[1..], " or ") + rest);
  }

  lemma OperatorText()
    ensures " or " == " " + ("or" + " ")
    ensures " and " == " " + ("and" + " ")
  {
  }

  lemma LexGrouped(atoms: seq<Atom>, rest: string)
    requires atoms != [] && AllLexable(atoms) && EndsWord(rest)
    ensures Lex(Grouped(Texts(atoms)) + rest) == GroupTokens(atoms) + Lex(rest)
  {
    if |atoms| > 1 {
      var list, close := Join(Texts(atoms), " or "), ")" + rest;
      LexParen(rest);
      LexParen(list + close);
      LexJoin(atoms, close);
      Enclose("(", list, ")", rest);
      Enclose([LeftParen], atoms[0].Tokens() + OrTokens(atoms[1..]), [RightParen], Lex(rest));
    } else {
      LexJoin(atoms, rest);
    }
  }

  lemma LexParen(rest: string)
    ensures Lex("(" + rest) == [LeftParen] + Lex(rest)
    ensures Lex(")" + rest) == [RightParen] + Lex(rest)
  {
    assert ("(" + rest)[1..] == rest && (")" + rest)[1..] == rest;
  }

  // ---------- parsing the tokens ----------

  /** The left-associated disjunction; None when one of the atoms is not a primitive. */
  function OrAll(left: Expr, atoms: seq<Atom>): Option<Expr>
    decreases |atoms|
  {
    if atoms == [] then Some(left)
    else
      match atoms[0].Meaning()
      case None => None
      case Some(e) => OrAll(Or(left, e), atoms[1..])
  }

  function GroupExpr(atoms: seq<Atom>): Option<Expr>
    requires atoms != []
  {
    match atoms[0].Meaning()
    case None => None
    case Some(e) => OrAll(e, atoms[1..])
  }

  lemma ParseAtom(a: Atom, rest: seq<Token>)
    ensures ParseTerm(a.Tokens() + rest)
         == match a.Meaning() case None => None case Some(e) => Some((e, rest))
  {
    assert (a.Tokens() + rest)[3..] == rest;
  }

  lemma {:induction false} ParseOrs(left: Expr, atoms: seq<Atom>, rest: seq<Token>)
    ensures ParseMore(left, OrTokens(atoms) + rest)
         == match OrAll(left, atoms) case None => None case Some(e) => ParseMore(e, rest)
    decreases |atoms|
  {
    hide Primitive;
    if atoms == [] {
      assert OrTokens(atoms) + rest == rest;
    } else {
      var more := OrTokens(atoms[1..]) + rest;
      var ts := [Word("or")] + (atoms[0].Tokens() + more);
      assert OrTokens(atoms) + rest == ts;
      assert ts[1..] == atoms[0].Tokens() + more;
      ParseAtom(atoms[0], more);
      if atoms[0].Meaning().Some? {
        ParseOrs(Or(left, atoms[0].Meaning().value), atoms[1..], rest);
      }
    }
  }

  lemma ParseGroupList(atoms: seq<Atom>, rest: seq<Token>)
    requires atoms != []
    ensures ParseExpr(atoms[0].Tokens() + OrTokens(atoms[1..]) + rest)
         == match GroupExpr(atoms) case None => None case Some(e) => ParseMore(e, rest)
  {
    hide Primitive;
    var more := OrTokens(atoms[1..]) + rest;
    assert atoms[0].Tokens() + OrTokens(atoms[1..]) + rest == atoms[0].Tokens() + more;
    ParseAtom(atoms[0], more);
    if atoms[0].Meaning().Some? {
      ParseOrs(atoms[0].Meaning().value, atoms[1..], rest);
    }
  }

  lemma ParseEnclosed(list: seq<Token>, rest: seq<Token>)
    ensures ParseTerm([LeftParen] + (list + ([RightParen] + rest)))
         == match ParseExpr(list + ([RightParen] + rest))
            case None => None
            case Some((e, more)) => if more != [] && more[0] == RightParen then Some((e, more[1..])) else None
    ensures ([RightParen] + rest)[1..] == rest
    ensures forall e :: ParseMore(e, [RightParen] + rest) == Some((e, [RightParen] + rest))
  {
    assert ([LeftParen] + (list + ([RightParen] + rest)))[1..] == list + ([RightParen] + rest);
  }

  lemma ParseGrouped(atoms: seq<Atom>, rest: seq<Token>)
    requires atoms != []
    ensures ParseTerm(GroupTokens(atoms) + rest)
         == match GroupExpr(atoms) case None => None case Some(e) => Some((e, rest))
  {
    hide Primitive;
    if |atoms| == 1 {
      assert atoms[1..] == [];
      assert GroupTokens(atoms) + rest == atoms[0].Tokens() + rest;
      ParseAtom(atoms[0], rest);
    } else {
      var list, close := atoms[0].Tokens() + OrTokens(atoms[1..]), [RightParen] + rest;
      Enclose([LeftParen], list, [RightParen], rest);
      ParseGroupList(atoms, close);
      ParseEnclosed(list, rest);
    }
  }

  /** The parser reads the grouped conjunction back as the conjunction of the two groups. */
  lemma ParseTwoGroups(first: seq<Atom>, second: seq<Atom>)
    requires first != [] && second != [] && AllLexable(first) && AllLexable(second)
    ensures Parse(Grouped(Texts(first)) + (" and " + Grouped(Texts(second))))
         == match (GroupExpr(first), GroupExpr(second))
            case (Some(p), Some(n)) => Some(And(p, n))
            case _ => None
  {
    hide Primitive;
    var tail := Grouped(Texts(second));
    var rest := [Word("and")] + GroupTokens(second);
    OperatorText();
    Regroup3(" ", "and", " ", tail);
    LexGrouped(first, " " + ("and" + (" " + tail)));
    LexOperator("and", tail);
    LexWhole(second);
    assert Lex(Grouped(Texts(first)) + (" and " + tail)) == GroupTokens(first) + rest;
    ParseConjunction(first, second);
  }

  lemma LexWhole(atoms: seq<Atom>)
    requires atoms != [] && AllLexable(atoms)
    ensures Lex(Grouped(Texts(atoms))) == GroupTokens(atoms)
  {
    assert Grouped(Texts(atoms)) + "" == Grouped(Texts(atoms));
    LexGrouped(atoms, "");
    assert Lex("") == [];
    assert GroupTokens(atoms) + [] == GroupTokens(atoms);
  }

  lemma ParseConjunction(first: seq<Atom>, second: seq<Atom>)
    requires first != [] && second != []
    ensures ParseExpr(GroupTokens(first) + ([Word("and")] + GroupTokens(second)))
         == match (GroupExpr(first), GroupExpr(second))
            case (Some(p), Some(n)) => Some((And(p, n), []))
            case _ => None
  {
    hide Primitive;
    var rest := [Word("and")] + GroupTokens(second);
    ParseGrouped(first, rest);
    assert rest[1..] == GroupTokens(second) + [];
    ParseGrouped(second, []);
    if GroupExpr(first).Some? && GroupExpr(second).Some? {
      var both := And(GroupExpr(first).value, GroupExpr(second).value);
      assert ParseMore(both, []) == Some((both, []));
    }
  }

  lemma ParseOneGroup(first: seq<Atom>)
    requires first != [] && AllLexable(first)
    ensures Parse(Grouped(Texts(first))) == GroupExpr(first)
  {
    hide Primitive;
    LexWhole(first);
    assert GroupTokens(first) + [] == GroupTokens(first);
    ParseGrouped(first, []);
    if GroupExpr(first).Some? {
      assert ParseMore(GroupExpr(first).value, []) == Some((GroupExpr(first).value, []));
    }
  }

  lemma {:induction false} OrAllAccepts(left: Expr, atoms: seq<Atom>, p: Seen)
    ensures OrAll(left, atoms).Some? <==> Meaningful(atoms)
    ensures OrAll(left, atoms).Some? ==>
              (Accepts(OrAll(left, atoms).value, p)
               <==> Accepts(left, p) || exists i | 0 <= i < |atoms| :: Accepts(atoms[i].Meaning().value, p))
    decreases |atoms|
  {
    hide Primitive;
    if atoms != [] && atoms[0].Meaning().Some? {
      OrAllAccepts(Or(left, atoms[0].Meaning().value), atoms[1..], p);
      assert forall i | 1 <= i < |atoms| :: atoms[i] == atoms[1..][i - 1];
      assert forall i | 0 <= i < |atoms| - 1 :: atoms[1..][i] == atoms[i + 1];
    }
  }

  lemma GroupAccepts(atoms: seq<Atom>, p: Seen)
    requires atoms != []
    ensures GroupExpr(atoms).Some? <==> Meaningful(atoms)
    ensures GroupExpr(atoms).Some? ==>
              (Accepts(GroupExpr(atoms).value, p)
               <==> exists i | 0 <= i < |atoms| :: Accepts(atoms[i].Meaning().value, p))
  {
    hide Primitive;
    if atoms[0].Meaning().Some? {
      OrAllAccepts(atoms[0].Meaning().value, atoms[1..], p);
      assert forall i | 1 <= i < |atoms| :: atoms[i] == atoms[1..][i - 1];
      assert forall i | 0 <= i < |atoms| - 1 :: atoms[1..][i] == atoms[i + 1];
    }
  }

  // ---------- the bits of a prefix ----------

  /** Bit i of an address, counted from the most significant (section 3.1 of RFC 4632). */
  function Bit(a: Address, i: nat): nat
    requires i < 32
  {
    ByteBit(a[i / 8], i % 8)
  }

  function ByteBit(b: Byte, j: nat): nat
    requires j < 8
  {
    b / HostSize(j + 1) % 2
  }

  predicate SharePrefix(a: Address, b: Address, n: nat) {
    forall i | 0 <= i < n && i < 32 :: Bit(a, i) == Bit(b, i)
  }

  lemma HalvesPrefix(b: Byte, j: nat)
    requires j < 8
    ensures b / HostSize(j + 1) == 2 * (b / HostSize(j)) + ByteBit(b, j)
  {
    if j == 0 {} else if j == 1 {} else if j == 2 {} else if j == 3 {}
    else if j == 4 {} else if j == 5 {} else if j == 6 {} else {}
  }

  /** Two bytes have the same leading part exactly when they agree bit by bit. */
  lemma {:induction false} SameLeadingBits(a: Byte, b: Byte, k: nat)
    requires k <= 8
    ensures a / HostSize(k) == b / HostSize(k) <==> forall j | 0 <= j < k :: ByteBit(a, j) == ByteBit(b, j)
  {
    if k > 0 {
      SameLeadingBits(a, b, k - 1);
      HalvesPrefix(a, k - 1);
      HalvesPrefix(b, k - 1);
    }
  }

  lemma MaskByteIsMultiple(b: Byte, k: nat)
    requires k <= 8
    ensures MaskByte(b, k) == b / HostSize(k) * HostSize(k)
    ensures MaskByte(b, k) / HostSize(k) == b / HostSize(k)
    ensures MaskByte(MaskByte(b, k), k) == MaskByte(b, k)
  {
    if k == 0 {} else if k == 1 {} else if k == 2 {} else if k == 3 {} else if k == 4 {}
    else if k == 5 {} else if k == 6 {} else if k == 7 {} else {}
  }

  lemma MaskByteKeepsLeadingBits(a: Byte, b: Byte, k: nat)
    requires k <= 8
    ensures MaskByte(a, k) == MaskByte(b, k) <==> forall j | 0 <= j < k :: ByteBit(a, j) == ByteBit(b, j)
  {
    MaskByteIsMultiple(a, k);
    MaskByteIsMultiple(b, k);
    SameLeadingBits(a, b, k);
  }

  lemma MaskedTwice(a: Address, n: nat)
    ensures Masked(Masked(a, n), n) == Masked(a, n)
  {
    MaskByteIsMultiple(a[0], BitsIn(n, 0));
    MaskByteIsMultiple(a[1], BitsIn(n, 1));
    MaskByteIsMultiple(a[2], BitsIn(n, 2));
    MaskByteIsMultiple(a[3], BitsIn(n, 3));
  }

  /** A masked address keeps its first n bits, and the others are zero. */
  lemma MaskedBits(a: Address, n: nat, i: nat)
    requires i < 32
    ensures Bit(Masked(a, n), i) == if i < n then Bit(a, i) else 0
  {
    MaskByteBits(a[i / 8], BitsIn(n, i / 8), i % 8);
  }

  lemma MaskByteBits(b: Byte, k: nat, j: nat)
    requires k <= 8 && j < 8
    ensures ByteBit(MaskByte(b, k), j) == if j < k then ByteBit(b, j) else 0
  {
    MaskByteIsMultiple(b, k);
    if j < k {
      MaskByteKeepsLeadingBits(MaskByte(b, k), b, k);
    } else {
      MultipleHasZeros(b / HostSize(k), k, j);
    }
  }

  lemma MultipleHasZeros(q: nat, k: nat, j: nat)
    requires k <= j < 8
    ensures q * HostSize(k) / HostSize(j + 1) % 2 == 0
  {
    hide HostSize;
    var c := HostSize(j + 1);
    var m := HalvesAgain(k, j);
    assert q * HostSize(k) == c * (2 * (q * m));
    QuotientOf(c, 2 * (q * m), 0);
  }

  lemma HalvesAgain(k: nat, j: nat) returns (m: nat)
    requires k <= j < 8
    ensures HostSize(j + 1) > 0 && HostSize(k) == 2 * HostSize(j + 1) * m
    decreases j - k
  {
    if k == j {
      m := 1;
    } else {
      m := HalvesAgain(k + 1, j);
      m := 2 * m;
    }
  }

  lemma QuotientOf(c: nat, x: nat, r: nat)
    requires r < c
    ensures (c * x + r) / c == x
  {
    var d: int := (c * x + r) / c;
    var rest: int := x - d;
    assert c * x + r == c * d + (c * x + r) % c;
    assert c * rest == (c * x + r) % c - r;
    MultipleGrows(c, rest);
  }

  lemma MultipleGrows(c: int, k: int)
    requires c > 0
    ensures k >= 1 ==> c * k >= c
    ensures k <= -1 ==> c * k <= -c
  {
  }

  // ---------- the bits of a mask ----------

  /** Bit i of a mask of any length; beyond its end there are no ones. */
  function MaskBit(mask: Bytes, i: nat): nat {
    if i / 8 < |mask| then ByteBit(mask[i / 8], i % 8) else 0
  }

  /** No one follows a zero. */
  ghost predicate IsPrefixMask(mask: Bytes) {
    forall i: nat, j: nat | i < j && MaskBit(mask, j) == 1 :: MaskBit(mask, i) == 1
  }

  lemma BitsOfOnes(k: nat, j: nat)
    requires k <= 8 && j < 8
    ensures ByteBit(256 - HostSize(k), j) == if j < k then 1 else 0
  {
    if j < k {
      OnesHaveOnes(k, j);
    } else {
      OnesAreMultiple(k);
      MultipleHasZeros(256 / HostSize(k) - 1, k, j);
    }
  }

  lemma OnesHaveOnes(k: nat, j: nat)
    requires j < k <= 8
    ensures ByteBit(256 - HostSize(k), j) == 1
  {
    var p := HalvesAgain(0, j);
    SizesFall(k, j + 1);
    var c, h := HostSize(j + 1), HostSize(k);
    OddQuotient(c, p, h);
  }

  lemma OddQuotient(c: nat, p: nat, h: nat)
    requires 256 == 2 * c * p && 0 < h <= c && p > 0
    ensures (256 - h) / c % 2 == 1
  {
    var x, r := 2 * p - 1, c - h;
    assert c * x + r == 256 - h;
    QuotientOf(c, x, r);
  }

  lemma SizesFall(k: nat, j: nat)
    requires j <= k <= 8
    ensures 0 < HostSize(k) <= HostSize(j)
  {
  }

  lemma OnesAreMultiple(k: nat)
    requires k <= 8
    ensures 256 / HostSize(k) >= 1 && (256 / HostSize(k) - 1) * HostSize(k) == 256 - HostSize(k)
  {
    if k == 0 {} else if k == 1 {} else if k == 2 {} else if k == 3 {} else if k == 4 {}
    else if k == 5 {} else if k == 6 {} else if k == 7 {} else {}
  }

  lemma SameBits(a: Byte, b: Byte)
    requires forall j | 0 <= j < 8 :: ByteBit(a, j) == ByteBit(b, j)
    ensures a == b
  {
    SameLeadingBits(a, b, 8);
  }

  /** A mask is n ones and then zeros exactly when its leading ones are n. */
  lemma LeadingOnesAreBits(mask: Bytes, n: nat)
    requires n <= 8 * |mask|
    ensures LeadingOnes(mask) == Some(n) <==> forall i: nat :: MaskBit(mask, i) == if i < n then 1 else 0
  {
    hide ByteBit, LeadingOnes;
    LeadingOnesIsPrefixLength(mask, n);
    if LeadingOnes(mask) == Some(n) {
      forall i: nat ensures MaskBit(mask, i) == if i < n then 1 else 0 {
        if i / 8 < |mask| { BitsOfOnes(BitsIn(n, i / 8), i % 8); }
      }
    }
    if forall i: nat :: MaskBit(mask, i) == if i < n then 1 else 0 {
      forall b | 0 <= b < |mask| ensures mask[b] == 256 - HostSize(BitsIn(n, b)) {
        forall j | 0 <= j < 8 ensures ByteBit(mask[b], j) == ByteBit(256 - HostSize(BitsIn(n, b)), j) {
          BitsOfOnes(BitsIn(n, b), j);
          assert MaskBit(mask, 8 * b + j) == ByteBit(mask[b], j);
        }
        SameBits(mask[b], 256 - HostSize(BitsIn(n, b)));
      }
    }
  }

  lemma {:induction false} LeadingOnesFit(mask: Bytes)
    ensures LeadingOnes(mask).Some? ==> LeadingOnes(mask).value <= 8 * |mask|
  {
    if mask != [] { LeadingOnesFit(mask[1..]); }
  }

  /** The number of ones before the first zero. */
  lemma {:induction false} FirstZero(mask: Bytes, from: nat) returns (n: nat)
    requires from <= 8 * |mask| && forall i: nat | i < from :: MaskBit(mask, i) == 1
    ensures n <= 8 * |mask| && MaskBit(mask, n) == 0
    ensures forall i: nat | i < n :: MaskBit(mask, i) == 1
    decreases 8 * |mask| - from
  {
    if MaskBit(mask, from) == 0 {
      n := from;
    } else {
      n := FirstZero(mask, from + 1);
    }
  }

  /** The size of a mask is the number of its ones, and 0 when a one follows a zero. */
  lemma MaskSizeIs(mask: Bytes)
    ensures MaskSize(mask) <= 8 * |mask|
    ensures IsPrefixMask(mask) ==> forall i: nat :: MaskBit(mask, i) == if i < MaskSize(mask) then 1 else 0
    ensures !IsPrefixMask(mask) ==> MaskSize(mask) == 0
  {
    hide ByteBit, LeadingOnes, MaskBit;
    LeadingOnesFit(mask);
    if IsPrefixMask(mask) {
      var n := FirstZeroOf(mask);
      LeadingOnesAreBits(mask, n);
    } else if LeadingOnes(mask).Some? {
      LeadingOnesAreBits(mask, LeadingOnes(mask).value);
    }
  }

  lemma FirstZeroOf(mask: Bytes) returns (n: nat)
    requires IsPrefixMask(mask)
    ensures n <= 8 * |mask| && forall i: nat :: MaskBit(mask, i) == if i < n then 1 else 0
  {
    n := FirstZero(mask, 0);
    forall i: nat | i > n ensures MaskBit(mask, i) == 0 {
      assert MaskBit(mask, i) == 1 ==> MaskBit(mask, n) == 1;
    }
  }

  /** An address that the filter tests: IPv4, with a mask of ones and then zeros that starts with a one. */
  ghost predicate IsTested(addr: InterfaceAddress) {
    To4(addr.ip).Some? && IsPrefixMask(addr.netmask) && MaskBit(addr.netmask, 0) == 1
  }

  /** The source agrees with the address in every bit that is set in the netmask. */
  ghost predicate IsOnNetwork(addr: InterfaceAddress, p: Seen) {
    && IsTested(addr) && p.isIpv4
    && forall i: nat | i < 32 && MaskBit(addr.netmask, i) == 1 :: Bit(p.src, i) == Bit(To4(addr.ip).value, i)
  }

  lemma ContributesIff(addr: InterfaceAddress)
    ensures Contributes(addr) <==> IsTested(addr)
    ensures Contributes(addr) ==> (MaskSize(addr.netmask) <= 32 <==> MaskBit(addr.netmask, 32) == 0)
  {
    hide MaskSize, MaskBit;
    MaskSizeIs(addr.netmask);
  }

  lemma IsSourceIff(addr: InterfaceAddress, p: Seen)
    ensures IsSource(addr, p) <==> IsOnNetwork(addr, p)
  {
    hide MaskSize, MaskBit, Bit;
    MaskSizeIs(addr.netmask);
    ContributesIff(addr);
  }

  /** The part of a prefix that lies in byte i. */
  predicate ShareByte(a: Address, b: Address, n: nat, i: nat)
    requires i < 4
  {
    forall j | 0 <= j < BitsIn(n, i) :: ByteBit(a[i], j) == ByteBit(b[i], j)
  }

  lemma SharePrefixIsBytewise(a: Address, b: Address, n: nat)
    requires SharePrefix(a, b, n)
    ensures forall i | 0 <= i < 4 :: ShareByte(a, b, n, i)
  {
    hide ByteBit;
    forall i | 0 <= i < 4 ensures ShareByte(a, b, n, i) {
      forall j | 0 <= j < BitsIn(n, i) ensures ByteBit(a[i], j) == ByteBit(b[i], j) {
        assert Bit(a, 8 * i + j) == Bit(b, 8 * i + j);
      }
    }
  }

  lemma BytewiseIsSharePrefix(a: Address, b: Address, n: nat)
    requires forall i | 0 <= i < 4 :: ShareByte(a, b, n, i)
    ensures SharePrefix(a, b, n)
  {
    hide ByteBit;
    forall i | 0 <= i < n && i < 32 ensures Bit(a, i) == Bit(b, i) {
      assert ShareByte(a, b, n, i / 8);
      assert i % 8 < BitsIn(n, i / 8);
    }
  }

  /** Two addresses have the same masked prefix exactly when their first n bits agree. */
  lemma MaskedIsPrefix(a: Address, b: Address, n: nat)
    ensures Masked(a, n) == Masked(b, n) <==> SharePrefix(a, b, n)
  {
    hide ByteBit, MaskByte;
    MaskByteKeepsLeadingBits(a[0], b[0], BitsIn(n, 0));
    MaskByteKeepsLeadingBits(a[1], b[1], BitsIn(n, 1));
    MaskByteKeepsLeadingBits(a[2], b[2], BitsIn(n, 2));
    MaskByteKeepsLeadingBits(a[3], b[3], BitsIn(n, 3));
    var x, y := Masked(a, n), Masked(b, n);
    assert x == y <==> x[0] == y[0] && x[1] == y[1] && x[2] == y[2] && x[3] == y[3];
    assert x == y <==> ShareByte(a, b, n, 0) && ShareByte(a, b, n, 1) && ShareByte(a, b, n, 2) && ShareByte(a, b, n, 3);
    if x == y { BytewiseIsSharePrefix(a, b, n); }
    if SharePrefix(a, b, n) { SharePrefixIsBytewise(a, b, n); }
  }

  // ---------- the meaning of the built filter ----------

  function PortAtom(port: int): Atom { Atom("udp", "port", SignedDecimal(port)) }

  function PortAtoms(ports: seq<int>): seq<Atom> {
    seq(|ports|, i requires 0 <= i < |ports| => PortAtom(ports[i]))
  }

  function NetworkAtom(addr: InterfaceAddress): Atom
    requires Contributes(addr)
  {
    Atom("src", "net", GetNetwork(addr).value)
  }

  function NetworkAtoms(addresses: seq<InterfaceAddress>): seq<Atom> {
    if addresses == [] then []
    else
      var addr, init := addresses[|addresses| - 1], addresses[..|addresses| - 1];
      NetworkAtoms(init) + if Contributes(addr) then [NetworkAtom(addr)] else []
  }

  lemma AtomTexts(id: string)
    ensures "udp port " + id == Atom("udp", "port", id).Text()
    ensures "src net " + id == Atom("src", "net", id).Text()
  {
    Regroup3("udp", " ", "port" + " ", id);
    Regroup3("src", " ", "net" + " ", id);
    assert "udp port " == "udp" + (" " + ("port" + " "));
    assert "src net " == "src" + (" " + ("net" + " "));
    assert "port" + " " + id == "port" + (" " + id);
    assert "net" + " " + id == "net" + (" " + id);
  }

  lemma {:induction false} TextsOfAtoms(ports: seq<int>, addresses: seq<InterfaceAddress>)
    ensures PortTexts(ports) == Texts(PortAtoms(ports))
    ensures NetworkTexts(addresses) == Texts(NetworkAtoms(addresses))
  {
    forall i | 0 <= i < |ports| ensures PortTexts(ports)[i] == PortAtom(ports[i]).Text() {
      AtomTexts(SignedDecimal(ports[i]));
    }
    NetworkTextsOfAtoms(addresses);
  }

  lemma {:induction false} NetworkTextsOfAtoms(addresses: seq<InterfaceAddress>)
    ensures NetworkTexts(addresses) == Texts(NetworkAtoms(addresses))
  {
    if addresses != [] {
      var addr, init := addresses[|addresses| - 1], addresses[..|addresses| - 1];
      NetworkTextsOfAtoms(init);
      if Contributes(addr) {
        AtomTexts(GetNetwork(addr).value);
        TextsAppend(NetworkAtoms(init), NetworkAtom(addr));
      }
    }
  }

  lemma TextsAppend(atoms: seq<Atom>, a: Atom)
    ensures Texts(atoms + [a]) == Texts(atoms) + [a.Text()]
  {
  }

  lemma AtomsAreLexable(ports: seq<int>, addresses: seq<InterfaceAddress>)
    ensures AllLexable(PortAtoms(ports)) && AllLexable(NetworkAtoms(addresses))
  {
    forall i | 0 <= i < |ports| ensures PortAtom(ports[i]).IsLexable() {}
    if addresses != [] {
      var addr, init := addresses[|addresses| - 1], addresses[..|addresses| - 1];
      AtomsAreLexable(ports, init);
      if Contributes(addr) {
        QuadCharacters(Masked(To4(addr.ip).value, MaskSize(addr.netmask)));
      }
    }
  }

  lemma PortMeaning(port: int)
    ensures PortAtom(port).Meaning() == if 0 <= port < 65536 then Some(Port(port)) else None
  {
    SignedDecimalReads(port);
  }

  lemma NetworkMeaning(addr: InterfaceAddress)
    requires Contributes(addr)
    ensures NetworkAtom(addr).Meaning()
         == if MaskSize(addr.netmask) <= 32
            then Some(SourceNet(Masked(To4(addr.ip).value, MaskSize(addr.netmask)), MaskSize(addr.netmask)))
            else None
  {
    var ip, size := To4(addr.ip).value, MaskSize(addr.netmask);
    DecimalReads(size);
    if size <= 32 {
      CutFinds(Quad(Masked(ip, size)), '/', Decimal(size));
      QuadCharacters(Masked(ip, size));
      QuadReads(Masked(ip, size));
      MaskedTwice(ip, size);
    } else {
      CutFinds("<nil>", '/', Decimal(size));
      CutMisses("<nil>", '.');
    }
  }

  /** An address whose network the filter tests. */
  predicate IsSource(addr: InterfaceAddress, p: Seen) {
    Contributes(addr) && p.isIpv4 && SharePrefix(p.src, To4(addr.ip).value, MaskSize(addr.netmask))
  }

  predicate Compilable(ports: seq<int>, addresses: seq<InterfaceAddress>) {
    && (forall i | 0 <= i < |ports| :: 0 <= ports[i] < 65536)
    && Ipv4Masks(addresses)
  }

  lemma {:induction false} NetworkAtomsEmpty(addresses: seq<InterfaceAddress>)
    ensures NetworkAtoms(addresses) == [] <==> forall i | 0 <= i < |addresses| :: !Contributes(addresses[i])
  {
    hide GetNetwork;
    if addresses != [] {
      var init := addresses[..|addresses| - 1];
      NetworkAtomsEmpty(init);
      assert forall i | 0 <= i < |init| :: addresses[i] == init[i];
    }
  }

  predicate Meaningful(atoms: seq<Atom>) { forall i | 0 <= i < |atoms| :: atoms[i].Meaning().Some? }

  predicate Ipv4Masks(addresses: seq<InterfaceAddress>) {
    forall i | 0 <= i < |addresses| :: Contributes(addresses[i]) ==> MaskSize(addresses[i].netmask) <= 32
  }

  lemma {:induction false} NetworkAtomsCompile(addresses: seq<InterfaceAddress>)
    ensures Meaningful(NetworkAtoms(addresses)) <==> Ipv4Masks(addresses)
  {
    hide Primitive, GetNetwork;
    if addresses != [] {
      var addr, init := addresses[|addresses| - 1], addresses[..|addresses| - 1];
      var rest := NetworkAtoms(init);
      NetworkAtomsCompile(init);
      assert Ipv4Masks(addresses) <==> Ipv4Masks(init) && (Contributes(addr) ==> MaskSize(addr.netmask) <= 32) by {
        assert forall i | 0 <= i < |init| :: addresses[i] == init[i];
      }
      if Contributes(addr) {
        NetworkMeaning(addr);
        MeaningfulAppend(rest, NetworkAtom(addr));
      } else {
        assert NetworkAtoms(addresses) == rest;
      }
    }
  }

  lemma MeaningfulAppend(atoms: seq<Atom>, a: Atom)
    ensures Meaningful(atoms + [a]) <==> Meaningful(atoms) && a.Meaning().Some?
  {
    hide Primitive;
    var all := atoms + [a];
    assert all[|atoms|] == a;
    assert forall i | 0 <= i < |atoms| :: all[i] == atoms[i];
  }

  /** Some network of the built filter accepts the packet. */
  predicate SomeAccepts(atoms: seq<Atom>, p: Seen) {
    exists i | 0 <= i < |atoms| :: atoms[i].Meaning().Some? && Accepts(atoms[i].Meaning().value, p)
  }

  lemma {:induction false} NetworkAtomsAccept(addresses: seq<InterfaceAddress>, p: Seen)
    requires Compilable([], addresses)
    ensures SomeAccepts(NetworkAtoms(addresses), p) <==> exists i | 0 <= i < |addresses| :: IsSource(addresses[i], p)
  {
    hide Primitive, GetNetwork, MaskSize, SharePrefix;
    if addresses != [] {
      var addr, init := addresses[|addresses| - 1], addresses[..|addresses| - 1];
      var atoms, rest := NetworkAtoms(addresses), NetworkAtoms(init);
      NetworkAtomsAccept(init, p);
      assert forall i | 0 <= i < |rest| :: atoms[i] == rest[i];
      assert forall i | 0 <= i < |init| :: addresses[i] == init[i];
      if Contributes(addr) {
        assert atoms[|rest|] == NetworkAtom(addr);
        NetworkAccepts(addr, p);
      }
    }
  }

  lemma NetworkAccepts(addr: InterfaceAddress, p: Seen)
    requires Contributes(addr) && MaskSize(addr.netmask) <= 32
    ensures NetworkAtom(addr).Meaning().Some?
    ensures Accepts(NetworkAtom(addr).Meaning().value, p) <==> IsSource(addr, p)
  {
    hide Primitive;
    NetworkMeaning(addr);
    MaskedIsPrefix(p.src, To4(addr.ip).value, MaskSize(addr.netmask));
  }

  // ---------- theorems ----------

  /** The text is one of the filter language exactly when the ports are ports and every mask is an IPv4 mask. */
  lemma FilterCompilesIff(ports: seq<int>, addresses: seq<InterfaceAddress>)
    requires ports != []
    ensures Parse(FilterText(ports, addresses)).Some?
       <==> && (forall i | 0 <= i < |ports| :: 0 <= ports[i] < 65536)
            && (forall i | 0 <= i < |addresses| && IsTested(addresses[i]) :: MaskBit(addresses[i].netmask, 32) == 0)
  {
    hide MaskSize, MaskBit;
    CompilableIff(ports, addresses);
    var p := Seen(false, 0, 0, false, [0, 0, 0, 0]);
    FilterParses(ports, addresses, p);
  }

  lemma CompilableIff(ports: seq<int>, addresses: seq<InterfaceAddress>)
    ensures Compilable(ports, addresses)
       <==> && (forall i | 0 <= i < |ports| :: 0 <= ports[i] < 65536)
            && (forall i | 0 <= i < |addresses| && IsTested(addresses[i]) :: MaskBit(addresses[i].netmask, 32) == 0)
  {
    hide Contributes, IsTested, MaskSize, MaskBit;
    forall i | 0 <= i < |addresses|
      ensures Contributes(addresses[i]) <==> IsTested(addresses[i])
      ensures Contributes(addresses[i]) ==>
                (MaskSize(addresses[i].netmask) <= 32 <==> MaskBit(addresses[i].netmask, 32) == 0)
    {
      ContributesIff(addresses[i]);
    }
  }

  /** A port that the configuration does not refuse, and that is none. */
  lemma PortTooLarge()
    ensures Parse(FilterText([65536], [])).None?
  {
    FilterCompilesIff([65536], []);
    assert [65536][0] == 65536;
  }

  /** 10.0.0.1 in its sixteen-byte form with the sixteen-byte mask of its prefix /96. */
  lemma MaskTooLong(port: int)
    ensures var ip, mask := V4_IN_V6_PREFIX + [10, 0, 0, 1], seq(12, _ => 255) + seq(4, _ => 0);
            Parse(FilterText([port], [InterfaceAddress(ip, mask)])).None?
  {
    hide MaskSize, FilterText, Parse;
    var ip, mask: Bytes := V4_IN_V6_PREFIX + [10, 0, 0, 1], seq(12, _ => 255) + seq(4, _ => 0);
    var addresses := [InterfaceAddress(ip, mask)];
    FilterCompilesIff([port], addresses);
    assert ip[..12] == V4_IN_V6_PREFIX;
    LeadingOnesIsPrefixLength(mask, 96);
    LeadingOnesAreBits(mask, 96);
    assert IsTested(addresses[0]) && MaskBit(addresses[0].netmask, 32) == 1;
  }

  /** Parsing the text gives the conjunction of the two groups. */
  lemma FilterTree(ports: seq<int>, addresses: seq<InterfaceAddress>)
    requires ports != []
    ensures Parse(FilterText(ports, addresses))
         == if NetworkAtoms(addresses) == [] then GroupExpr(PortAtoms(ports))
            else match (GroupExpr(PortAtoms(ports)), GroupExpr(NetworkAtoms(addresses)))
                 case (Some(p), Some(n)) => Some(And(p, n))
                 case _ => None
  {
    hide Primitive;
    var first, second := PortAtoms(ports), NetworkAtoms(addresses);
    TextsOfAtoms(ports, addresses);
    AtomsAreLexable(ports, addresses);
    if second == [] {
      ParseOneGroup(first);
    } else {
      ParseTwoGroups(first, second);
      assert FilterText(ports, addresses) == Grouped(Texts(first)) + (" and " + Grouped(Texts(second)));
    }
  }

  lemma FilterParses(ports: seq<int>, addresses: seq<InterfaceAddress>, p: Seen)
    requires ports != []
    ensures Parse(FilterText(ports, addresses)).Some? <==> Compilable(ports, addresses)
    ensures Compilable(ports, addresses) ==>
              (Accepts(Parse(FilterText(ports, addresses)).value, p)
               <==> SomeAccepts(PortAtoms(ports), p)
                    && (NetworkAtoms(addresses) == [] || SomeAccepts(NetworkAtoms(addresses), p)))
  {
    hide Primitive, Parse, FilterText;
    var first, second := PortAtoms(ports), NetworkAtoms(addresses);
    FilterTree(ports, addresses);
    GroupAccepts(first, p);
    NetworkAtomsCompile(addresses);
    NetworkAtomsEmpty(addresses);
    forall i | 0 <= i < |ports| ensures first[i].Meaning().Some? <==> 0 <= ports[i] < 65536 {
      PortMeaning(ports[i]);
    }
    assert Meaningful(first) <==> forall i | 0 <= i < |ports| :: 0 <= ports[i] < 65536;
    if second != [] {
      GroupAccepts(second, p);
    }
  }

  /**
    The filter lets through exactly the UDP packets to or from a listed port whose source lies,
    when the interface has any IPv4 prefix, in the prefix of one of its addresses.
   */
  lemma FilterAccepts(ports: seq<int>, addresses: seq<InterfaceAddress>, p: Seen)
    requires ports != [] && Parse(FilterText(ports, addresses)).Some?
    ensures Accepts(Parse(FilterText(ports, addresses)).value, p)
       <==> && p.isUdp && (p.srcPort in ports || p.dstPort in ports)
            && ((exists i | 0 <= i < |addresses| :: IsTested(addresses[i]))
                ==> exists i | 0 <= i < |addresses| :: IsOnNetwork(addresses[i], p))
  {
    hide Primitive, Contributes, IsSource, IsTested, IsOnNetwork;
    forall i | 0 <= i < |addresses|
      ensures Contributes(addresses[i]) <==> IsTested(addresses[i])
      ensures IsSource(addresses[i], p) <==> IsOnNetwork(addresses[i], p)
    {
      ContributesIff(addresses[i]);
      IsSourceIff(addresses[i], p);
    }
    FilterParses(ports, addresses, p);
    NetworkAtomsCompile(addresses);
    NetworkAtomsEmpty(addresses);
    NetworkAtomsAccept(addresses, p);
    PortAtomsAccept(ports, p);
  }

  lemma PortAtomsAccept(ports: seq<int>, p: Seen)
    requires Compilable(ports, [])
    ensures SomeAccepts(PortAtoms(ports), p) <==> p.isUdp && (p.srcPort in ports || p.dstPort in ports)
  {
    hide Primitive;
    var atoms := PortAtoms(ports);
    forall i | 0 <= i < |ports| ensures atoms[i].Meaning() == Some(Port(ports[i])) {
      PortMeaning(ports[i]);
    }
    if p.isUdp && p.srcPort in ports {
      var i :| 0 <= i < |ports| && ports[i] == p.srcPort;
      assert Accepts(atoms[i].Meaning().value, p);
    }
    if p.isUdp && p.dstPort in ports {
      var i :| 0 <= i < |ports| && ports[i] == p.dstPort;
      assert Accepts(atoms[i].Meaning().value, p);
    }
  }

  // ---------- texts ----------

  const OFFICE := InterfaceAddress([192, 168, 1, 10], [255, 255, 255, 0])

  /** The text that the repository's own test expects of the builder. */
  lemma TextAsExpected()
    ensures FilterText([53, 67], [OFFICE]) == "(udp port 53 or udp port 67) and src net 192.168.1.0/24"
  {
    hide PortText, Contributes, GetNetwork, Grouped;
    PortTextsAsExpected();
    NetworkAsExpected();
    var p, q, c := PortText(53), PortText(67), "src net " + "192.168.1.0/24";
    assert [OFFICE][..0] == [];
    assert PortTexts([53, 67]) == [p, q] && NetworkTexts([OFFICE]) == [c];
    GroupsAsExpected(p, q);
    GroupsAsExpected(c, c);
    PortsAreJoined();
    GroupsAreJoined();
  }

  lemma GroupsAsExpected(s: string, t: string)
    ensures Grouped([s, t]) == "(" + (s + " or " + t) + ")" && Grouped([s]) == s
  {
    assert [s, t][1..] == [t] && Join([t], " or ") == t;
  }

  lemma PortsAreJoined()
    ensures "(" + ("udp port 53" + " or " + "udp port 67") + ")" == "(udp port 53 or udp port 67)"
  {
  }

  lemma GroupsAreJoined()
    ensures "(udp port 53 or udp port 67)" + " and " + ("src net " + "192.168.1.0/24")
         == "(udp port 53 or udp port 67) and src net 192.168.1.0/24"
  {
  }

  lemma PortTextsAsExpected()
    ensures PortText(53) == "udp port 53" && PortText(67) == "udp port 67" && PortText(-1) == "udp port -1"
  {
    Numerals();
    assert "udp port " + "53" == "udp port 53" && "udp port " + "67" == "udp port 67";
    assert "-" + "1" == "-1" && "udp port " + "-1" == "udp port -1";
  }

  lemma Numerals()
    ensures Decimal(0) == "0" && Decimal(1) == "1" && Decimal(8) == "8" && Decimal(10) == "10" && Decimal(24) == "24"
    ensures Decimal(53) == "53" && Decimal(67) == "67" && Decimal(168) == "168" && Decimal(192) == "192"
  {
    TwoDigits(1, 0);
    TwoDigits(2, 4);
    TwoDigits(5, 3);
    TwoDigits(6, 7);
    TwoDigits(1, 6);
    TwoDigits(1, 9);
    assert Decimal(168) == Decimal(16) + [Digit(8)] && Decimal(192) == Decimal(19) + [Digit(2)];
  }

  lemma TwoDigits(a: nat, b: nat)
    requires 0 < a < 10 && b < 10
    ensures Decimal(10 * a + b) == [Digit(a), Digit(b)]
  {
    var n := 10 * a + b;
    assert n / 10 == a && n % 10 == b;
    assert Decimal(a) == [Digit(a)];
  }

  lemma NetworkAsExpected()
    ensures GetNetwork(OFFICE) == Some("192.168.1.0/24") && Contributes(OFFICE)
  {
    hide Decimal, LeadingOnes, Quad, Masked;
    LeadingOnesIsPrefixLength([255, 255, 255, 0], 24);
    assert MaskSize([255, 255, 255, 0]) == 24;
    OfficeIsMasked();
    OfficeIsPrinted();
    Numerals();
    NetworkIsJoined();
  }

  lemma OfficeIsMasked()
    ensures Masked([192, 168, 1, 10], 24) == [192, 168, 1, 0]
  {
  }

  lemma OfficeIsPrinted()
    ensures Quad([192, 168, 1, 0]) == "192" + ("." + ("168" + ("." + ("1" + ("." + "0")))))
  {
    hide Decimal;
    Numerals();
  }

  lemma NetworkIsJoined()
    ensures "192" + ("." + ("168" + ("." + ("1" + ("." + "0"))))) + "/" + "24" == "192.168.1.0/24"
  {
  }
}
