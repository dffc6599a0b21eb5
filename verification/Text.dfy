/** The text of an annotation: comma-separated addresses in dotted-quad notation. */
module Text {
  import opened Addresses

  datatype Option<+T> = None | Some(value: T)

  /** The pieces of `s` between occurrences of `sep`; always at least one. */
  function Split(s: string, sep: char): (parts: seq<string>)
    ensures |parts| >= 1
  {
    if s == [] then [[]]
    else
      var rest := Split(s[1..], sep);
      if s[0] == sep then [[]] + rest else [[s[0]] + rest[0]] + rest[1..]
  }

  function Join(parts: seq<string>, sep: char): string {
    if |parts| == 0 then []
    else if |parts| == 1 then parts[0]
    else parts[0] + [sep] + Join(parts[1..], sep)
  }

  function Digit(n: nat): char
    requires n < 10
  {
    ('0' as int + n) as char
  }

  predicate IsDigit(ch: char) {
    '0' <= ch <= '9'
  }

  function DigitValue(ch: char): nat
    requires IsDigit(ch)
  {
    ch as int - '0' as int
  }

  function FormatOctet(n: nat): string
    requires n < 256
  {
    if n < 10 then [Digit(n)]
    else if n < 100 then [Digit(n / 10), Digit(n % 10)]
    else [Digit(n / 100), Digit(n / 10 % 10), Digit(n % 10)]
  }

  /** Leading zeros and values above 255 are refused, so more than three digits never are an octet. */
  function ParseOctet(s: string): (r: Option<nat>)
    ensures r.Some? ==> r.value < 256
  {
    if |s| == 1 && IsDigit(s[0]) then Some(DigitValue(s[0]))
    else if |s| == 2 && IsDigit(s[0]) && IsDigit(s[1]) && s[0] != '0' then
      Some(10 * DigitValue(s[0]) + DigitValue(s[1]))
    else if |s| == 3 && IsDigit(s[0]) && IsDigit(s[1]) && IsDigit(s[2]) && s[0] != '0' then
      var v := 100 * DigitValue(s[0]) + 10 * DigitValue(s[1]) + DigitValue(s[2]);
      if v < 256 then Some(v) else None
    else None
  }

  function Compose(o: seq<nat>): int
    requires |o| == 4
  {
    0x100_0000 * o[0] + 0x1_0000 * o[1] + 0x100 * o[2] + o[3]
  }

  function Octets(a: Address): (o: seq<nat>)
    ensures |o| == 4 && o[0] < 256 && o[1] < 256 && o[2] < 256 && o[3] < 256
    ensures Compose(o) == a
  {
    var high, low := a / 0x1_0000, a % 0x1_0000;
    [high / 0x100, high % 0x100, low / 0x100, low % 0x100]
  }

  function FormatIP(a: Address): string {
    var o := Octets(a);
    Join([FormatOctet(o[0]), FormatOctet(o[1]), FormatOctet(o[2]), FormatOctet(o[3])], '.')
  }

  function ParseIP(s: string): Option<Address> {
    var parts := Split(s, '.');
    if |parts| != 4 then None
    else
      var o0, o1, o2, o3 := ParseOctet(parts[0]), ParseOctet(parts[1]), ParseOctet(parts[2]), ParseOctet(parts[3]);
      if o0.Some? && o1.Some? && o2.Some? && o3.Some? then
        Some(Compose([o0.value, o1.value, o2.value, o3.value]))
      else None
  }

  /** The annotation that grants `addresses`, one for each block of the resource. */
  function FormatAnnotation(addresses: seq<Address>): string {
    Join(seq(|addresses|, i requires 0 <= i < |addresses| => FormatIP(addresses[i])), ',')
  }

  // ---------- splitting and joining ----------

  lemma {:induction false} SplitAtFirst(p: string, rest: string, sep: char)
    requires sep !in p
    ensures Split(p + [sep] + rest, sep) == [p] + Split(rest, sep)
  {
    var s := p + [sep] + rest;
    if p == [] {
      assert s[1..] == rest;
    } else {
      assert s[1..] == p[1..] + [sep] + rest;
      SplitAtFirst(p[1..], rest, sep);
      assert p == [p[0]] + p[1..];
    }
  }

  lemma {:induction false} SplitSingle(p: string, sep: char)
    requires sep !in p
    ensures Split(p, sep) == [p]
  {
    if p != [] {
      SplitSingle(p[1..], sep);
      assert p == [p[0]] + p[1..];
    }
  }

  lemma {:induction false} SplitJoin(parts: seq<string>, sep: char)
    requires |parts| >= 1
    requires forall i :: 0 <= i < |parts| ==> sep !in parts[i]
    ensures Split(Join(parts, sep), sep) == parts
  {
    if |parts| == 1 {
      SplitSingle(parts[0], sep);
    } else {
      SplitJoin(parts[1..], sep);
      SplitAtFirst(parts[0], Join(parts[1..], sep), sep);
      assert parts == [parts[0]] + parts[1..];
    }
  }

  lemma {:induction false} JoinSplit(s: string, sep: char)
    ensures Join(Split(s, sep), sep) == s
  {
    if s != [] {
      JoinSplit(s[1..], sep);
      var rest := Split(s[1..], sep);
      var parts := Split(s, sep);
      assert s == [s[0]] + s[1..];
      if s[0] == sep {
        assert parts[1..] == rest;
      } else {
        assert parts[1..] == rest[1..];
      }
    }
  }

  // ---------- octets and addresses ----------

  lemma OctetText(n: nat, ch: char)
    requires n < 256
    requires ch == '.' || ch == ','
    ensures ch !in FormatOctet(n)
    ensures ParseOctet(FormatOctet(n)) == Some(n)
  {
  }

  lemma OctetTextUnique(s: string, n: nat)
    requires ParseOctet(s) == Some(n)
    ensures n < 256 && s == FormatOctet(n)
  {
    if |s| == 3 {
      var d0, d1, d2 := DigitValue(s[0]), DigitValue(s[1]), DigitValue(s[2]);
      assert n / 100 == d0 && n / 10 % 10 == d1 && n % 10 == d2;
    }
  }

  lemma HighAndLow(high: nat, low: nat)
    ensures low < 0x100 ==> (0x100 * high + low) / 0x100 == high && (0x100 * high + low) % 0x100 == low
    ensures low < 0x1_0000 ==> (0x1_0000 * high + low) / 0x1_0000 == high && (0x1_0000 * high + low) % 0x1_0000 == low
  {
  }

  lemma OctetsUnique(o: seq<nat>)
    requires |o| == 4 && o[0] < 256 && o[1] < 256 && o[2] < 256 && o[3] < 256
    ensures 0 <= Compose(o) < SPACE && Octets(Compose(o)) == o
  {
    var high, low := 0x100 * o[0] + o[1], 0x100 * o[2] + o[3];
    HighAndLow(o[0], o[1]);
    HighAndLow(o[2], o[3]);
    HighAndLow(high, low);
    assert Compose(o) == 0x1_0000 * high + low;
  }

  /** Dotted-quad text and addresses correspond one to one, so comparing the texts is comparing the addresses. */
  lemma AddressText(s: string, a: Address)
    ensures ParseIP(s) == Some(a) <==> s == FormatIP(a)
  {
    var o := Octets(a);
    var quads := [FormatOctet(o[0]), FormatOctet(o[1]), FormatOctet(o[2]), FormatOctet(o[3])];
    if s == FormatIP(a) {
      forall i | 0 <= i < 4
        ensures '.' !in quads[i] && ParseOctet(quads[i]) == Some(o[i])
      {
        OctetText(o[i], '.');
      }
      SplitJoin(quads, '.');
      assert [o[0], o[1], o[2], o[3]] == o;
    }
    if ParseIP(s) == Some(a) {
      var parts := Split(s, '.');
      var p := [ParseOctet(parts[0]).value, ParseOctet(parts[1]).value, ParseOctet(parts[2]).value, ParseOctet(parts[3]).value];
      OctetsUnique(p);
      forall i | 0 <= i < 4
        ensures parts[i] == quads[i]
      {
        OctetTextUnique(parts[i], p[i]);
      }
      assert parts == quads;
      JoinSplit(s, '.');
    }
  }

  lemma {:induction false} JoinAvoids(parts: seq<string>, sep: char, ch: char)
    requires ch != sep
    requires forall i :: 0 <= i < |parts| ==> ch !in parts[i]
    ensures ch !in Join(parts, sep)
  {
    if |parts| > 1 {
      JoinAvoids(parts[1..], sep, ch);
    }
  }

  lemma NoComma(a: Address)
    ensures ',' !in FormatIP(a)
  {
    var o := Octets(a);
    OctetText(o[0], ',');
    OctetText(o[1], ',');
    OctetText(o[2], ',');
    OctetText(o[3], ',');
    JoinAvoids([FormatOctet(o[0]), FormatOctet(o[1]), FormatOctet(o[2]), FormatOctet(o[3])], '.', ',');
  }

  /** What is written for a namespace is read back position by position. */
  lemma AnnotationRoundTrip(addresses: seq<Address>)
    requires |addresses| >= 1
    ensures var parts := Split(FormatAnnotation(addresses), ',');
            |parts| == |addresses| && forall i :: 0 <= i < |parts| ==> ParseIP(parts[i]) == Some(addresses[i])
  {
    var texts := seq(|addresses|, i requires 0 <= i < |addresses| => FormatIP(addresses[i]));
    forall i | 0 <= i < |addresses|
      ensures ',' !in texts[i] && ParseIP(texts[i]) == Some(addresses[i])
    {
      NoComma(addresses[i]);
      AddressText(texts[i], addresses[i]);
    }
    SplitJoin(texts, ',');
  }
}
