/** Decimal numbers and dotted quads as Go's fmt and net packages print them, and readers for both. */
module Text {
  import opened Wrappers
  import opened Net

  predicate IsDigit(c: char) { '0' <= c <= '9' }

  function Digit(d: nat): (c: char)
    requires d < 10
    ensures IsDigit(c)
  {
    ('0' as int + d) as char
  }

  function Decimal(n: nat): (s: string)
    ensures s != "" && forall i | 0 <= i < |s| :: IsDigit(s[i])
  {
    if n < 10 then [Digit(n)] else Decimal(n / 10) + [Digit(n % 10)]
  }

  /** %d of a signed number. */
  function SignedDecimal(n: int): string {
    if n < 0 then "-" + Decimal(-n) else Decimal(n)
  }

  function ParseDecimal(s: string): Option<nat> {
    if s == "" || !IsDigit(s[|s| - 1]) then None
    else
      var d := s[|s| - 1] as int - '0' as int;
      if |s| == 1 then Some(d)
      else
        match ParseDecimal(s[..|s| - 1])
        case None => None
        case Some(v) => Some(10 * v + d)
  }

  lemma {:induction false} DecimalReads(n: nat)
    ensures ParseDecimal(Decimal(n)) == Some(n)
  {
    if n >= 10 {
      DecimalReads(n / 10);
      var s := Decimal(n);
      assert s[..|s| - 1] == Decimal(n / 10);
    }
  }

  lemma {:induction false} MinusIsNoDecimal(s: string)
    requires s != "" && s[0] == '-'
    ensures ParseDecimal(s).None?
  {
    if |s| > 1 { MinusIsNoDecimal(s[..|s| - 1]); }
  }

  lemma SignedDecimalReads(n: int)
    ensures ParseDecimal(SignedDecimal(n)) == if n < 0 then None else Some(n)
  {
    if n < 0 { MinusIsNoDecimal(SignedDecimal(n)); } else { DecimalReads(n); }
  }

  /** strings.Cut: the text before and after the first separator. */
  function Cut(s: string, separator: char): Option<(string, string)> {
    if s == "" then None
    else if s[0] == separator then Some(("", s[1..]))
    else
      match Cut(s[1..], separator)
      case None => None
      case Some((before, after)) => Some(([s[0]] + before, after))
  }

  lemma {:induction false} CutFinds(before: string, separator: char, after: string)
    requires separator !in before
    ensures Cut(before + [separator] + after, separator) == Some((before, after))
  {
    var s := before + [separator] + after;
    if before == "" {
      assert s[1..] == after;
    } else {
      assert s[1..] == before[1..] + [separator] + after;
      CutFinds(before[1..], separator, after);
      assert [before[0]] + before[1..] == before;
    }
  }

  lemma CutMisses(s: string, separator: char)
    requires separator !in s
    ensures Cut(s, separator).None?
  {
  }

  function Quad(a: Bytes): string
    requires |a| == 4
  {
    Decimal(a[0]) + "." + (Decimal(a[1]) + "." + (Decimal(a[2]) + "." + Decimal(a[3])))
  }

  function ParseByte(s: string): Option<Byte> {
    match ParseDecimal(s)
    case None => None
    case Some(v) => if v < 256 then Some(v) else None
  }

  function ParseBytes(s: string, dots: nat): Option<Bytes>
    decreases dots
  {
    if dots == 0 then
      match ParseByte(s) case None => None case Some(v) => Some([v])
    else
      match Cut(s, '.')
      case None => None
      case Some((first, rest)) =>
        match (ParseByte(first), ParseBytes(rest, dots - 1))
        case (Some(v), Some(vs)) => Some([v] + vs)
        case _ => None
  }

  function ParseQuad(s: string): (r: Option<Bytes>)
    ensures r.Some? ==> |r.value| == 4
  {
    match ParseBytes(s, 3)
    case None => None
    case Some(a) => if |a| == 4 then Some(a) else None
  }

  lemma NextByteReads(b: Byte, rest: string, dots: nat)
    ensures ParseBytes(Decimal(b) + "." + rest, dots + 1)
         == match ParseBytes(rest, dots) case None => None case Some(vs) => Some([b] + vs)
  {
    DecimalReads(b);
    CutFinds(Decimal(b), '.', rest);
  }

  lemma LastByteReads(b: Byte)
    ensures ParseBytes(Decimal(b), 0) == Some([b])
  {
    DecimalReads(b);
  }

  lemma QuadReads(a: Bytes)
    requires |a| == 4
    ensures ParseQuad(Quad(a)) == Some(a)
  {
    hide Decimal, Cut, ParseByte;
    var s3 := Decimal(a[3]);
    var s2 := Decimal(a[2]) + "." + s3;
    var s1 := Decimal(a[1]) + "." + s2;
    LastByteReads(a[3]);
    NextByteReads(a[2], s3, 0);
    NextByteReads(a[1], s2, 1);
    NextByteReads(a[0], s1, 2);
    assert [a[0]] + ([a[1]] + ([a[2]] + [a[3]])) == a;
  }

  lemma QuadCharacters(a: Bytes)
    requires |a| == 4
    ensures Quad(a) != "" && forall i | 0 <= i < |Quad(a)| :: IsDigit(Quad(a)[i]) || Quad(a)[i] == '.'
  {
  }

  /** strings.Join. */
  function Join(parts: seq<string>, separator: string): string {
    if parts == [] then ""
    else if |parts| == 1 then parts[0]
    else parts[0] + separator + Join(parts[1..], separator)
  }
}
