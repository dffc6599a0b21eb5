/** What the texts of addresses and annotations mean, digit by digit and piece by piece. */
module Notation {
  import opened Addresses
  import opened Text
  import opened Collections
  import opened Cluster
  import opened Namespaces

  /** The number that a text of decimal digits denotes. */
  function Value(t: string): int {
    if t == "" then 0 else 10 * Value(t[..|t| - 1]) + (t[|t| - 1] as int - 48)
  }

  /** A decimal number below 256 without leading zeros. */
  predicate Numeral(t: string) {
    && t != ""
    && (forall i :: 0 <= i < |t| ==> '0' <= t[i] <= '9')
    && (|t| > 1 ==> t[0] != '0')
    && Value(t) < 256
  }

  /** Four numbers in base 256, the first the highest. */
  function InBase256(v0: int, v1: int, v2: int, v3: int): int {
    ((v0 * 256 + v1) * 256 + v2) * 256 + v3
  }

  lemma {:induction false} ValueAtLeast(t: string)
    requires forall i :: 0 <= i < |t| ==> '0' <= t[i] <= '9'
    ensures Value(t) >= 0
    ensures |t| > 0 && t[0] != '0' ==> Value(t) >= |t|
    ensures |t| > 3 && t[0] != '0' ==> Value(t) >= 1000
  {
    if |t| > 1 {
      ValueAtLeast(t[..|t| - 1]);
      if |t| == 4 {
        var a, b := t[..3], t[..2];
        assert a[..2] == b && b[..1] == t[..1];
        assert Value(t[..1]) == 10 * Value("") + (t[0] as int - 48) by { assert t[..1][..0] == ""; }
      }
    }
  }

  lemma OneDigit(t: string)
    requires |t| == 1
    ensures Value(t) == t[0] as int - 48
  {
    assert t[..0] == "";
  }

  lemma TwoDigits(t: string)
    requires |t| == 2
    ensures Value(t) == 10 * (t[0] as int - 48) + (t[1] as int - 48)
  {
    OneDigit(t[..1]);
  }

  lemma ThreeDigits(t: string)
    requires |t| == 3
    ensures Value(t) == 100 * (t[0] as int - 48) + 10 * (t[1] as int - 48) + (t[2] as int - 48)
  {
    TwoDigits(t[..2]);
    assert t[..2][0] == t[0] && t[..2][1] == t[1];
  }

  /** An octet is read exactly when it is such a number, and as that number. */
  lemma OctetMeans(t: string)
    ensures ParseOctet(t).Some? <==> Numeral(t)
    ensures Numeral(t) ==> ParseOctet(t) == Some(Value(t))
  {
    if |t| == 1 {
      OneDigit(t);
    } else if |t| == 2 {
      TwoDigits(t);
    } else if |t| == 3 {
      ThreeDigits(t);
    } else if |t| > 3 && forall i :: 0 <= i < |t| ==> '0' <= t[i] <= '9' {
      ValueAtLeast(t);
    }
  }

  /** Four pieces joined by dots. */
  function Dotted(t0: string, t1: string, t2: string, t3: string): string {
    t0 + "." + t1 + "." + t2 + "." + t3
  }

  lemma DotFirst(t: string, rest: string)
    requires '.' !in t
    ensures Split(t + "." + rest, '.') == [t] + Split(rest, '.')
  {
    SplitAtFirst(t, rest, '.');
  }

  lemma DottedNests(t0: string, t1: string, t2: string, t3: string)
    ensures Dotted(t0, t1, t2, t3) == t0 + "." + (t1 + "." + (t2 + "." + t3))
  {
  }

  lemma DottedSplits(t0: string, t1: string, t2: string, t3: string)
    requires '.' !in t0 && '.' !in t1 && '.' !in t2 && '.' !in t3
    ensures Split(Dotted(t0, t1, t2, t3), '.') == [t0, t1, t2, t3]
  {
    hide Split, Dotted;
    DottedNests(t0, t1, t2, t3);
    SplitSingle(t3, '.');
    DotFirst(t2, t3);
    var two := t2 + "." + t3;
    DotFirst(t1, two);
    DotFirst(t0, t1 + "." + two);
  }

  lemma NumeralHasNo(t: string, ch: char)
    requires Numeral(t) && (ch == '.' || ch == ',')
    ensures ch !in t
  {
  }

  lemma ReadParts(s: string, t0: string, t1: string, t2: string, t3: string)
    requires Split(s, '.') == [t0, t1, t2, t3]
    requires ParseOctet(t0).Some? && ParseOctet(t1).Some? && ParseOctet(t2).Some? && ParseOctet(t3).Some?
    ensures ParseIP(s) == Some(InBase256(ParseOctet(t0).value, ParseOctet(t1).value, ParseOctet(t2).value, ParseOctet(t3).value))
  {
    hide Split, ParseOctet;
  }

  /** Four such numbers joined by dots denote the address that they are in base 256. */
  lemma AddressMeans(t0: string, t1: string, t2: string, t3: string)
    requires Numeral(t0) && Numeral(t1) && Numeral(t2) && Numeral(t3)
    ensures ParseIP(Dotted(t0, t1, t2, t3)) == Some(InBase256(Value(t0), Value(t1), Value(t2), Value(t3)))
  {
    NumeralHasNo(t0, '.');
    NumeralHasNo(t1, '.');
    NumeralHasNo(t2, '.');
    NumeralHasNo(t3, '.');
    hide Split, Numeral, Value, ParseOctet, ParseIP, Dotted, InBase256;
    DottedSplits(t0, t1, t2, t3);
    OctetMeans(t0);
    OctetMeans(t1);
    OctetMeans(t2);
    OctetMeans(t3);
    ReadParts(Dotted(t0, t1, t2, t3), t0, t1, t2, t3);
  }

  /** And no other text denotes an address. */
  lemma OnlyNumerals(s: string) returns (t0: string, t1: string, t2: string, t3: string)
    requires ParseIP(s).Some?
    ensures Numeral(t0) && Numeral(t1) && Numeral(t2) && Numeral(t3) && s == Dotted(t0, t1, t2, t3)
  {
    var parts := Split(s, '.');
    t0, t1, t2, t3 := parts[0], parts[1], parts[2], parts[3];
    OctetMeans(t0);
    OctetMeans(t1);
    OctetMeans(t2);
    OctetMeans(t3);
    hide Split, Numeral, Value, ParseOctet;
    JoinSplit(s, '.');
    assert parts == [t0, t1, t2, t3];
    JoinFour(t0, t1, t2, t3);
  }

  lemma JoinFour(t0: string, t1: string, t2: string, t3: string)
    ensures Join([t0, t1, t2, t3], '.') == Dotted(t0, t1, t2, t3)
  {
    assert [t0, t1, t2, t3][1..] == [t1, t2, t3];
    assert [t1, t2, t3][1..] == [t2, t3];
    assert [t2, t3][1..] == [t3];
    assert Join([t3], '.') == t3;
    assert Join([t2, t3], '.') == t2 + "." + t3;
    assert Join([t1, t2, t3], '.') == t1 + "." + (t2 + "." + t3);
  }

  /** Every address is written as such numbers. */
  lemma WrittenMeans(a: Address) returns (t0: string, t1: string, t2: string, t3: string)
    ensures Numeral(t0) && Numeral(t1) && Numeral(t2) && Numeral(t3) && FormatIP(a) == Dotted(t0, t1, t2, t3)
    ensures a == InBase256(Value(t0), Value(t1), Value(t2), Value(t3))
  {
    AddressText(FormatIP(a), a);
    hide ParseIP, FormatIP, Numeral, Value, Dotted, InBase256;
    t0, t1, t2, t3 := OnlyNumerals(FormatIP(a));
    AddressMeans(t0, t1, t2, t3);
  }

  lemma SmallNumerals()
    ensures Numeral("0") && Numeral("1") && Numeral("10")
    ensures Value("0") == 0 && Value("1") == 1 && Value("10") == 10
  {
    OneDigit("0");
    OneDigit("1");
    TwoDigits("10");
    hide Value;
  }

  lemma TenDotOne()
    ensures ParseIP("10.0.0.1") == Some(0x0A00_0001) && FormatIP(0x0A00_0001) == "10.0.0.1"
    ensures FormatAnnotation([0x0A00_0001, 0x0A00_0001]) == "10.0.0.1,10.0.0.1"
  {
    hide ParseIP, FormatIP, FormatAnnotation, Value, Numeral;
    SmallNumerals();
    AddressMeans("10", "0", "0", "1");
    assert Dotted("10", "0", "0", "1") == "10.0.0.1";
    AddressText("10.0.0.1", 0x0A00_0001);
    TwoWritten(0x0A00_0001, 0x0A00_0001);
  }

  // ---------- annotations ----------

  /** A namespace with this annotation. */
  function WithText(ns: Namespace, text: string): Namespace {
    ns.(egressips := Some(text))
  }

  /** Two addresses are written with a comma between them. */
  lemma TwoWritten(a: Address, b: Address)
    ensures FormatAnnotation([a, b]) == FormatIP(a) + "," + FormatIP(b)
  {
    hide FormatIP;
    var texts := seq(2, i requires 0 <= i < 2 => FormatIP([a, b][i]));
    assert texts[1..] == [FormatIP(b)];
    assert Join([FormatIP(b)], ',') == FormatIP(b);
  }

  lemma PositionsArePieces(ns: Namespace, text: string)
    ensures |Positions(WithText(ns, text))| == |Split(text, ',')|
    ensures forall i :: 0 <= i < |Split(text, ',')| ==> Positions(WithText(ns, text))[i] == ParseIP(Split(text, ',')[i])
  {
    hide Split, ParseIP;
  }

  /** A text without a comma is one position; what stands before the first comma is the first of several. Every
      annotation is of one of the two forms. */
  lemma PositionsMean(ns: Namespace, first: string, rest: string)
    requires ',' !in first
    ensures Positions(WithText(ns, first)) == [ParseIP(first)]
    ensures Positions(WithText(ns, first + "," + rest)) == [ParseIP(first)] + Positions(WithText(ns, rest))
  {
    SplitSingle(first, ',');
    SplitAtFirst(first, rest, ',');
    hide Split, ParseIP, Positions, WithText;
    assert first + "," + rest == first + [','] + rest;
    PositionsArePieces(ns, first);
    PositionsArePieces(ns, rest);
    PositionsArePieces(ns, first + "," + rest);
  }

  lemma NoAnnotationMeans(ns: Namespace)
    requires ns.egressips.None?
    ensures Positions(ns) == []
  {
  }
}
