/** Universal addresses (rpcbind.cc; section 5.2.3.3 of RFC 5665): a host, and the two bytes of a port in decimal. */
module Uaddr {
  import opened Wrappers

  // ---- std::to_string and std::stoi ------------------------------------------

  function DigitChar(d: nat): char
    requires d < 10
  {
    '0' + d as char
  }

  function ToString(n: nat): (s: string)
    ensures s != []
  {
    if n < 10 then [DigitChar(n)] else ToString(n / 10) + [DigitChar(n % 10)]
  }

  predicate IsDigit(c: char) {
    '0' <= c <= '9'
  }

  predicate IsSpace(c: char) {
    c == ' ' || '\t' <= c <= '\r'
  }

  /** How many digits open a string. */
  function DigitSpan(s: string): (n: nat)
    ensures n <= |s| && (forall i | 0 <= i < n :: IsDigit(s[i])) && (n < |s| ==> !IsDigit(s[n]))
  {
    if s == [] || !IsDigit(s[0]) then 0 else 1 + DigitSpan(s[1..])
  }

  function Value(digits: string): nat
    requires forall i | 0 <= i < |digits| :: IsDigit(digits[i])
  {
    if digits == [] then 0
    else
      var last := digits[|digits| - 1];
      assert IsDigit(last);
      Value(digits[..|digits| - 1]) * 10 + (last - '0') as nat
  }

  datatype Parsed = Number(value: int) | InvalidArgument | OutOfRange

  /** std::stoi(): white space, a sign, digits; what follows the digits is ignored. */
  function Stoi(s: string): Parsed {
    if s != [] && IsSpace(s[0]) then Stoi(s[1..])
    else
      var negative := s != [] && s[0] == '-';
      var t := if negative || (s != [] && s[0] == '+') then s[1..] else s;
      var n := DigitSpan(t);
      if n == 0 then InvalidArgument
      else
        var v: int := if negative then -1 * Value(t[..n]) else Value(t[..n]);
        if -0x8000_0000 <= v < 0x8000_0000 then Number(v) else OutOfRange
  }

  /** std::string::rfind(c, from): the last occurrence at or before `from`. */
  function RFind(s: string, c: char, from: nat): (r: Option<nat>)
    ensures r.Some? ==> r.value < |s| && r.value <= from && s[r.value] == c
    ensures r.Some? ==> forall i | r.value < i < |s| && i <= from :: s[i] != c
    ensures r.None? ==> forall i | 0 <= i < |s| && i <= from :: s[i] != c
    decreases from
  {
    if from < |s| && s[from] == c then Some(from)
    else if from == 0 then None
    else RFind(s, c, from - 1)
  }

  // ---- the addresses ---------------------------------------------------------

  /** make_uaddr(); None is the exception for a port that is none. */
  function MakeUaddr(host: string, port: nat): Option<string> {
    if port == 0 || port >= 65536 then None
    else Some(host + "." + ToString(port / 256) + "." + ToString(port % 256))
  }

  /** parse_uaddr_port(). */
  function ParseUaddrPort(uaddr: string): (port: int)
    ensures -1 <= port < 65536
  {
    match RFind(uaddr, '.', |uaddr|)
    case None => -1
    case Some(low) =>
      if low == 0 then -1
      else match RFind(uaddr, '.', low - 1)
        case None => -1
        case Some(high) =>
          var hb, lb := Stoi(uaddr[high + 1..]), Stoi(uaddr[low + 1..]);
          if !hb.Number? || !lb.Number? then -1
          else if hb.value < 0 || hb.value > 255 || lb.value < 0 || lb.value > 255 then -1
          else hb.value * 256 + lb.value
  }

  // ---- decimal numbers -------------------------------------------------------

  lemma {:induction false} DigitsOf(n: nat)
    ensures forall i | 0 <= i < |ToString(n)| :: IsDigit(ToString(n)[i])
    ensures Value(ToString(n)) == n
  {
    if n >= 10 {
      DigitsOf(n / 10);
      var s := ToString(n);
      assert s[..|s| - 1] == ToString(n / 10);
    } else {
      assert ToString(n)[..0] == [];
    }
  }

  /** A number is written with its last decimal digit last, and without leading zeros. */
  lemma Decimal(q: nat, d: nat)
    requires d < 10
    ensures ToString(10 * q + d) == (if q == 0 then "" else ToString(q)) + ["0123456789"[d]]
  {
    assert (10 * q + d) / 10 == q && (10 * q + d) % 10 == d;
    assert ToString(10 * q + d) == if q == 0 then [DigitChar(d)] else ToString(q) + [DigitChar(d)];
  }

  /** Digits are all that counts, whatever follows them. */
  lemma {:induction false} DigitSpanOf(digits: string, rest: string)
    requires forall i | 0 <= i < |digits| :: IsDigit(digits[i])
    requires rest == [] || !IsDigit(rest[0])
    ensures DigitSpan(digits + rest) == |digits|
  {
    if digits == [] {
      assert digits + rest == rest;
    } else {
      assert (digits + rest)[1..] == digits[1..] + rest;
      DigitSpanOf(digits[1..], rest);
    }
  }

  lemma StoiOfToString(n: nat, rest: string)
    requires n < 0x8000_0000 && (rest == [] || !IsDigit(rest[0]))
    ensures Stoi(ToString(n) + rest) == Number(n)
  {
    var d := ToString(n);
    DigitsOf(n);
    DigitSpanOf(d, rest);
    assert (d + rest)[0] == d[0] && (d + rest)[..|d|] == d;
  }

  lemma StoiSigned(sign: string, digits: string, rest: string)
    requires sign in {"", "+", "-"} && digits != [] && forall i | 0 <= i < |digits| :: IsDigit(digits[i])
    requires rest == [] || !IsDigit(rest[0])
    ensures Stoi(sign + (digits + rest)) ==
      var v: int := if sign == "-" then -1 * Value(digits) else Value(digits);
      if -0x8000_0000 <= v < 0x8000_0000 then Number(v) else OutOfRange
  {
    hide DigitSpan, Value;
    var s, t := sign + (digits + rest), digits + rest;
    DigitSpanOf(digits, rest);
    assert t[..|digits|] == digits && IsDigit(t[0]);
    assert sign != "" ==> s[1..] == t;
    assert sign == "" ==> s == t;
  }

  /** White space (tab to carriage return, or a blank), a sign and digits are read as a number, whatever follows. */
  lemma {:induction false} StoiReads(spaces: string, sign: string, digits: string, rest: string)
    requires forall i | 0 <= i < |spaces| :: 9 <= spaces[i] as int <= 13 || spaces[i] as int == 32
    requires sign in {"", "+", "-"} && digits != [] && forall i | 0 <= i < |digits| :: IsDigit(digits[i])
    requires rest == [] || !IsDigit(rest[0])
    ensures Stoi(spaces + (sign + (digits + rest))) ==
      var v: int := if sign == "-" then -1 * Value(digits) else Value(digits);
      if -0x8000_0000 <= v < 0x8000_0000 then Number(v) else OutOfRange
  {
    hide DigitSpan, Value;
    var s := spaces + (sign + (digits + rest));
    if spaces == [] {
      assert s == sign + (digits + rest);
      StoiSigned(sign, digits, rest);
    } else {
      assert s[1..] == spaces[1..] + (sign + (digits + rest)) && IsSpace(s[0]);
      StoiReads(spaces[1..], sign, digits, rest);
    }
  }

  /** Any other character in front makes it no number. */
  lemma StoiRefuses(c: char, s: string)
    requires !(9 <= c as int <= 13) && c as int != 32 && !(48 <= c as int <= 57) && c !in {'+', '-'}
    ensures Stoi([c] + s) == InvalidArgument
  {
  }

  lemma LastDot(s: string, p: nat, from: nat)
    requires p < |s| && p <= from && s[p] == '.'
    requires forall i | p < i < |s| && i <= from :: s[i] != '.'
    ensures RFind(s, '.', from) == Some(p)
  {
  }

  /** Where the parts of an address are. */
  lemma Parts(host: string, hi: string, lo: string)
    requires (forall i | 0 <= i < |hi| :: IsDigit(hi[i])) && (forall i | 0 <= i < |lo| :: IsDigit(lo[i]))
    ensures var u, low := host + "." + hi + "." + lo, |host| + 1 + |hi|;
      && |u| == low + 1 + |lo|
      && u[|host| + 1..] == hi + ("." + lo) && u[low + 1..] == lo
      && RFind(u, '.', |u|) == Some(low) && RFind(u, '.', low - 1) == Some(|host|)
  {
    hide RFind;
    var u, low := host + "." + hi + "." + lo, |host| + 1 + |hi|;
    assert u == host + ("." + (hi + ("." + lo)));
    assert u[low] == '.' && u[|host|] == '.';
    forall i | low < i < |u| ensures u[i] != '.' {
      assert u[i] == lo[i - low - 1] && IsDigit(u[i]);
    }
    forall i | |host| < i < low ensures u[i] != '.' {
      assert u[i] == hi[i - |host| - 1] && IsDigit(u[i]);
    }
    LastDot(u, low, |u|);
    LastDot(u, |host|, low - 1);
  }

  lemma ParseParts(u: string, low: nat, high: nat, hb: int, lb: int)
    requires 0 < low < |u| && high < |u| && RFind(u, '.', |u|) == Some(low) && RFind(u, '.', low - 1) == Some(high)
    requires Stoi(u[high + 1..]) == Number(hb) && Stoi(u[low + 1..]) == Number(lb) && 0 <= hb < 256 && 0 <= lb < 256
    ensures ParseUaddrPort(u) == hb * 256 + lb
  {
    hide RFind, Stoi;
  }

  lemma BytesRound(host: string, hb: nat, lb: nat)
    requires hb < 256 && lb < 256
    ensures ParseUaddrPort(host + "." + ToString(hb) + "." + ToString(lb)) == hb * 256 + lb
  {
    hide ToString, Stoi, RFind, ParseUaddrPort;
    var hi, lo := ToString(hb), ToString(lb);
    DigitsOf(hb);
    DigitsOf(lb);
    Parts(host, hi, lo);
    StoiOfToString(hb, "." + lo);
    StoiOfToString(lb, []);
    assert lo + [] == lo;
    ParseParts(host + "." + hi + "." + lo, |host| + 1 + |hi|, |host|, hb, lb);
  }

  /** The port of an address is read back, whatever the host: empty, with dots, or with colons. An address is
      made for every port from 1 to 65535, and no other. */
  lemma UaddrRound(host: string, port: nat)
    ensures MakeUaddr(host, port).Some? <==> 1 <= port <= 65535
    ensures 1 <= port <= 65535 ==> ParseUaddrPort(MakeUaddr(host, port).value) == port
  {
    hide ToString, ParseUaddrPort;
    if 1 <= port <= 65535 {
      BytesRound(host, port / 256, port % 256);
    }
  }
}
