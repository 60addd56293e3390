// The address of the master, `host:port`, as the launcher composes it and the slave takes it apart.
module Address {
  import opened Codec

  predicate IsDigit(c: char) {
    '0' <= c <= '9'
  }

  predicate AllDigits(s: string) {
    forall i :: 0 <= i < |s| ==> IsDigit(s[i])
  }

  /** The number that a string of digits denotes; leading zeros do not count, and no digits denote zero. */
  function Value(s: string): (v: nat)
    requires AllDigits(s)
  {
    if s == "" then 0 else 10 * Value(s[..|s| - 1]) + (s[|s| - 1] as int - '0' as int)
  }

  lemma {:induction false} ValueGrows(s: string, n: nat)
    requires AllDigits(s) && n <= |s|
    ensures Value(s[..n]) <= Value(s)
    decreases |s|
  {
    if n < |s| {
      assert s[..|s| - 1][..n] == s[..n];
      ValueGrows(s[..|s| - 1], n);
    } else {
      assert s[..n] == s;
    }
  }

  /** The places of five digits. */
  lemma ValuePlaces(s: string)
    requires AllDigits(s) && |s| == 5
    ensures Value(s) == 10000 * (s[0] as int - 48) + 1000 * (s[1] as int - 48) + 100 * (s[2] as int - 48)
                        + 10 * (s[3] as int - 48) + (s[4] as int - 48)
  {
    assert s[..4][..3] == s[..3] && s[..3][..2] == s[..2] && s[..2][..1] == s[..1] && s[..1][..0] == "";
    assert Value(s[..1]) == s[0] as int - 48;
    assert Value(s[..2]) == 10 * Value(s[..1]) + (s[1] as int - 48);
    assert Value(s[..3]) == 10 * Value(s[..2]) + (s[2] as int - 48);
    assert Value(s[..4]) == 10 * Value(s[..3]) + (s[3] as int - 48);
  }

  /** Fewer digits are as many with zeros in front of them. */
  lemma {:induction false} LeadingZero(s: string)
    requires AllDigits(s)
    ensures AllDigits("0" + s) && Value("0" + s) == Value(s)
  {
    var t := "0" + s;
    if s == "" {
      assert t[..0] == "";
    } else {
      assert t[..|t| - 1] == "0" + s[..|s| - 1];
      LeadingZero(s[..|s| - 1]);
    }
  }

  /** More digits, the first of them not a zero, are more than any port. */
  lemma LongValue(s: string)
    requires AllDigits(s) && |s| > 5 && s[0] != '0'
    ensures Value(s) >= 100000
  {
    ValueGrows(s, 6);
    ValuePlaces(s[..5]);
    assert s[..6][..5] == s[..5];
  }

  /** Succeeds exactly on strings of digits whose value fits sixteen bits; no intermediate value comes near
      the limit of an `int`. */
  method ExtractPort(s: string) returns (port: Option<nat>)
    ensures port.Some? <==> AllDigits(s) && Value(s) <= 0xFFFF
    ensures port.Some? ==> port.value == Value(s)
  {
    var ret, begin := 0, 0;
    while begin != |s|
      invariant 0 <= begin <= |s| && AllDigits(s[..begin]) && ret == Value(s[..begin]) <= 0xFFFF
      decreases |s| - begin
    {
      if !IsDigit(s[begin]) {
        return None;
      }
      assert s[..begin + 1][..begin] == s[..begin];
      ret := 10 * ret + s[begin] as int - '0' as int;
      assert ret < 0x8000_0000;
      begin := begin + 1;
      if ret > 0xFFFF {
        if AllDigits(s) {
          ValueGrows(s, begin);
        }
        return None;
      }
    }
    assert s[..begin] == s;
    return Some(ret);
  }

  // ----- composing and splitting -----

  function Digit(d: nat): (c: char)
    requires d < 10
    ensures IsDigit(c)
  {
    '0' + d as char
  }

  /** The decimal numeral. */
  function Decimal(n: nat): (s: string)
    ensures s != "" && AllDigits(s)
  {
    if n < 10 then [Digit(n)] else Decimal(n / 10) + [Digit(n % 10)]
  }

  lemma {:induction false} DecimalValue(n: nat)
    ensures Value(Decimal(n)) == n
  {
    var s := Decimal(n);
    if n < 10 {
      assert s[..|s| - 1] == "";
    } else {
      DecimalValue(n / 10);
      assert s[..|s| - 1] == Decimal(n / 10);
    }
  }

  function LastColon(s: string): (pos: Option<nat>)
    ensures pos.Some? ==> pos.value < |s| && s[pos.value] == ':'
    ensures pos.Some? ==> forall i :: pos.value < i < |s| ==> s[i] != ':'
    ensures pos.None? ==> ':' !in s
  {
    if s == "" then None else if s[|s| - 1] == ':' then Some(|s| - 1) else LastColon(s[..|s| - 1])
  }

  datatype Master = Master(host: string, port: nat)

  /** The string is a host that is not empty, a colon, and digits whose value is the port. */
  ghost predicate Denotes(s: string, m: Master) {
    m.host != "" && m.port <= 0xFFFF &&
    exists digits: string :: digits != "" && AllDigits(digits) && Value(digits) == m.port && s == m.host + ":" + digits
  }

  function Join(host: string, digits: string): string {
    host + ":" + digits
  }

  /** Digits have no colon, so the one before them is the last. */
  lemma LastColonJoins(host: string, digits: string)
    requires AllDigits(digits)
    ensures var s := Join(host, digits);
            LastColon(s) == Some(|host|) && s[..|host|] == host && s[|host| + 1..] == digits
  {
    var s := Join(host, digits);
    assert s[|host|] == ':' && s[..|host|] == host && s[|host| + 1..] == digits;
    assert forall i :: |host| < i < |s| ==> s[i] == digits[i - |host| - 1] && IsDigit(s[i]);
    assert ':' in s;
  }

  /** What splitting at the last colon gives. */
  ghost predicate SplitsAs(s: string, m: Master) {
    && LastColon(s) == Some(|m.host|) && 0 < |m.host| < |s| - 1 && s[..|m.host|] == m.host
    && AllDigits(s[|m.host| + 1..]) && Value(s[|m.host| + 1..]) == m.port <= 0xFFFF
  }

  lemma DenotedSplits(s: string, m: Master)
    requires Denotes(s, m)
    ensures SplitsAs(s, m)
  {
    var digits: string :| digits != "" && AllDigits(digits) && Value(digits) == m.port && s == Join(m.host, digits);
    LastColonJoins(m.host, digits);
  }

  /** Finds the address that the string denotes, and fails only if it denotes none. */
  method ParseMaster(s: string) returns (master: Option<Master>)
    ensures master.Some? ==> Denotes(s, master.value)
    ensures forall m :: Denotes(s, m) ==> master == Some(m)
  {
    forall m: Master | Denotes(s, m)
      ensures SplitsAs(s, m)
    {
      DenotedSplits(s, m);
    }
    var pos := LastColon(s);
    if pos.None? || pos.value == 0 || pos.value + 1 == |s| {
      return None;
    }
    var port := ExtractPort(s[pos.value + 1..]);
    if port.None? {
      return None;
    }
    assert s == Join(s[..pos.value], s[pos.value + 1..]);
    return Some(Master(s[..pos.value], port.value));
  }

  function Compose(host: string, port: nat): string {
    Join(host, Decimal(port))
  }

  /** Every host that is not empty, colons or not, and every port are denoted by the address that is composed
      of them, and nothing else is. */
  lemma AddressRoundTrip(host: string, port: nat, m: Master)
    requires host != "" && port <= 0xFFFF
    ensures Denotes(Compose(host, port), m) <==> m == Master(host, port)
  {
    DecimalValue(port);
    LastColonJoins(host, Decimal(port));
    if Denotes(Compose(host, port), m) {
      DenotedSplits(Compose(host, port), m);
    }
  }
}
