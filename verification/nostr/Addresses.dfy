// Addresses of replaceable events, "kind:pubkey:d", as they are written in "a" tags.
module Addresses {
  import opened Wrappers

  // strconv.Itoa on naturals, strconv.Atoi, strings.SplitN(s, ":", 3)

  function Digit(n: nat): char
    requires n < 10
  {
    '0' + n as char
  }

  function DigitsOf(n: nat): (s: string)
    ensures s != [] && s[0] != '-' && s[0] != '+'
    ensures forall c :: c in s ==> '0' <= c <= '9'
  {
    if n < 10 then [Digit(n)] else DigitsOf(n / 10) + [Digit(n % 10)]
  }

  function Itoa(n: int): string {
    if n < 0 then "-" + DigitsOf(-n) else DigitsOf(n)
  }

  function ReadDigits(s: string): Option<nat> {
    if s == [] then None
    else
      var c := s[|s| - 1];
      if !('0' <= c <= '9') then None
      else
        var d := (c - '0') as nat;
        if |s| == 1 then Some(d)
        else
          match ReadDigits(s[..|s| - 1])
          case None => None
          case Some(n) => Some(10 * n + d)
  }

  const MAX_INT := 0x7FFF_FFFF_FFFF_FFFF

  function Atoi(s: string): Option<int> {
    var negative := s != [] && s[0] == '-';
    var digits := if negative || (s != [] && s[0] == '+') then s[1..] else s;
    match ReadDigits(digits)
    case None => None
    case Some(n) =>
      var m: int := n;
      var v := if negative then -m else m;
      if -MAX_INT - 1 <= v <= MAX_INT then Some(v) else None
  }

  // The part before the first separator and the part after it.
  function Cut(s: string, sep: char): (r: Option<(string, string)>)
    ensures r.None? <==> sep !in s
    ensures r.Some? ==> sep !in r.value.0 && s == r.value.0 + [sep] + r.value.1
  {
    if s == [] then None
    else if s[0] == sep then Some(("", s[1..]))
    else
      match Cut(s[1..], sep)
      case None => None
      case Some(parts) => Some(([s[0]] + parts.0, parts.1))
  }

  function Address(kind: int, pubkey: string, d: string): string {
    Itoa(kind) + ":" + pubkey + ":" + d
  }

  function ParseAddress(s: string): Option<(int, string, string)> {
    match Cut(s, ':')
    case None => None
    case Some(first) =>
      match Cut(first.1, ':')
      case None => None
      case Some(second) =>
        match Atoi(first.0)
        case None => None
        case Some(kind) => Some((kind, second.0, second.1))
  }

  lemma {:induction false} ReadsDigitsBack(n: nat)
    ensures ReadDigits(DigitsOf(n)) == Some(n)
  {
    if n >= 10 {
      ReadsDigitsBack(n / 10);
      assert DigitsOf(n)[..|DigitsOf(n)| - 1] == DigitsOf(n / 10);
    }
  }

  lemma {:induction false} CutsAtTheFirst(a: string, sep: char, b: string)
    requires sep !in a
    ensures Cut(a + [sep] + b, sep) == Some((a, b))
  {
    var s := a + [sep] + b;
    if a != [] {
      CutsAtTheFirst(a[1..], sep, b);
      assert s[1..] == a[1..] + [sep] + b;
      assert [a[0]] + a[1..] == a;
    } else {
      assert s[1..] == b;
    }
  }

  lemma AtoiReadsBack(kind: int)
    requires -MAX_INT - 1 <= kind <= MAX_INT
    ensures Atoi(Itoa(kind)) == Some(kind)
  {
    hide DigitsOf, ReadDigits;
    if kind < 0 {
      ReadsDigitsBack(-kind);
      assert Itoa(kind)[1..] == DigitsOf(-kind);
    } else {
      ReadsDigitsBack(kind);
    }
  }

  // Nothing shorter reads as the number, and nothing else as short.
  lemma {:induction false} DigitsAreShortest(n: nat, t: string)
    requires ReadDigits(t) == Some(n)
    ensures |DigitsOf(n)| <= |t| && (|DigitsOf(n)| == |t| ==> DigitsOf(n) == t)
  {
    var front, last := t[..|t| - 1], t[|t| - 1];
    assert t == front + [last];
    if front != [] {
      var m := ReadDigits(front).value;
      DigitsAreShortest(m, front);
      assert n / 10 == m && n % 10 == (last - '0') as nat;
    }
  }

  // Signs and leading zeros are read as well, and a number that is out of range
  // is not.
  lemma AtoiReadsSigns(n: int)
    requires n >= 0
    ensures Atoi("+" + DigitsOf(n)) == Atoi(DigitsOf(n)) == if n <= MAX_INT then Some(n) else None
    ensures Atoi("-" + DigitsOf(n)) == if n <= MAX_INT + 1 then Some(-n) else None
  {
    hide DigitsOf, ReadDigits;
    ReadsDigitsBack(n);
    assert ("+" + DigitsOf(n))[1..] == DigitsOf(n) && ("-" + DigitsOf(n))[1..] == DigitsOf(n);
  }

  lemma {:induction false} LeadingZeroIsRead(s: string)
    requires ReadDigits(s).Some?
    ensures ReadDigits("0" + s) == ReadDigits(s)
  {
    var last := |s| - 1;
    assert ("0" + s)[..|"0" + s| - 1] == "0" + s[..last] && ("0" + s)[|"0" + s| - 1] == s[last];
    if last > 0 {
      LeadingZeroIsRead(s[..last]);
    } else {
      assert "0" + s[..last] == "0";
    }
  }

  lemma ItoaIsShortest(n: int, t: string)
    requires Atoi(t) == Some(n)
    ensures |Itoa(n)| <= |t| && (|Itoa(n)| == |t| ==> Itoa(n) == t)
  {
    hide DigitsOf;
    if n < 0 {
      DigitsAreShortest(-n, t[1..]);
      assert t == "-" + t[1..];
    } else if t[0] == '-' || t[0] == '+' {
      DigitsAreShortest(n, t[1..]);
    } else {
      DigitsAreShortest(n, t);
    }
  }

  // What the check for deleted addresses looks up is what a deletion request
  // reads, whatever the identifier holds.
  lemma AddressReadsBack(kind: int, pubkey: string, d: string)
    requires -MAX_INT - 1 <= kind <= MAX_INT && ':' !in pubkey
    ensures ParseAddress(Address(kind, pubkey, d)) == Some((kind, pubkey, d))
  {
    hide Atoi, Itoa, Cut;
    AtoiReadsBack(kind);
    OnlyDigits(kind);
    assert Address(kind, pubkey, d) == Itoa(kind) + ":" + (pubkey + ":" + d);
    CutsAtTheFirst(Itoa(kind), ':', pubkey + ":" + d);
    CutsAtTheFirst(pubkey, ':', d);
  }

  // What parses as an address is a kind, a key without a colon and anything.
  lemma ParsesIff(s: string, kind: int, pubkey: string, d: string)
    ensures ParseAddress(s) == Some((kind, pubkey, d)) <==>
            exists k :: s == k + ":" + pubkey + ":" + d && ':' !in k && ':' !in pubkey && Atoi(k) == Some(kind)
  {
    hide Atoi, Cut;
    if ParseAddress(s) == Some((kind, pubkey, d)) {
      var first := Cut(s, ':').value;
      assert s == first.0 + ":" + (pubkey + ":" + d);
      assert s == first.0 + ":" + pubkey + ":" + d;
    }
    if k :| s == k + ":" + pubkey + ":" + d && ':' !in k && ':' !in pubkey && Atoi(k) == Some(kind) {
      assert s == k + ":" + (pubkey + ":" + d);
      CutsAtTheFirst(k, ':', pubkey + ":" + d);
      CutsAtTheFirst(pubkey, ':', d);
    }
  }

  lemma OnlyDigits(n: int)
    ensures forall c :: c in Itoa(n) ==> c == '-' || '0' <= c <= '9'
  {
  }
}
