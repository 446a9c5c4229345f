/**
  IPv4 addresses as text (Sources/fnet_stack/stack/fnet_inet.c).  Text is a string up to its terminating
  zero, which it does not contain.
 */
module Inet4 {
  import opened Words
  import opened Wrappers

  type Text = s: string | '\0' !in s witness ""

  predicate IsDigit(ch: char) {
    '0' <= ch <= '9'
  }

  function Digit(d: nat): (ch: char)
    requires d < 10
    ensures ch == "0123456789"[d]
  {
    '0' + d as char
  }

  function DigitValue(ch: char): (d: nat)
    requires IsDigit(ch)
    ensures d < 10 && ch == "0123456789"[d]
  {
    ch as nat - '0' as nat
  }

  /** The conversion "%d" of a byte. */
  function Decimal(n: nat): (s: string)
    ensures s != [] && (n < 10 ==> |s| == 1) && (n < 100 ==> |s| <= 2) && (n < 1000 ==> |s| <= 3)
    ensures forall k :: 0 <= k < |s| ==> IsDigit(s[k])
  {
    if n < 10 then [Digit(n)] else Decimal(n / 10) + [Digit(n % 10)]
  }

  /** The octets, each followed by a dot. */
  function Dotted(octets: seq<byte>): (s: string)
    ensures forall k :: 0 <= k < |s| ==> IsDigit(s[k]) || s[k] == '.'
  {
    if octets == [] then [] else Dotted(octets[..|octets| - 1]) + Decimal(octets[|octets| - 1]) + "."
  }

  /** The conversion "%d.%d.%d.%d" of an address. */
  function Printed(a: seq<byte>): (s: Text)
    requires |a| == 4
  {
    Dotted(a[..3]) + Decimal(a[3])
  }

  lemma PrintedLength(a: seq<byte>)
    requires |a| == 4
    ensures 0 < |Printed(a)| < 16
  {
    hide Decimal;
    DottedMore(a[..2], a[2]);
    DottedMore(a[..1], a[1]);
    DottedMore(a[..0], a[0]);
    assert a[..2] + [a[2]] == a[..3] && a[..1] + [a[1]] == a[..2] && a[..0] + [a[0]] == a[..1];
    assert Dotted(a[..0]) == [];
  }

  lemma DottedMore(octets: seq<byte>, b: byte)
    ensures Dotted(octets + [b]) == Dotted(octets) + Decimal(b) + "."
  {
    assert (octets + [b])[..|octets|] == octets;
  }

  // ----- the parser's states

  /** Octets completed, and the one in progress with whether it has digits yet. */
  datatype State = State(done: seq<byte>, current: byte, digit: bool)

  /** The text read to reach a state. */
  function Read(s: State): string {
    Dotted(s.done) + if s.digit then Decimal(s.current) else []
  }

  ghost predicate Reachable(s: State) {
    |s.done| <= 3 && (!s.digit ==> s.current == 0)
  }

  function Step(s: State, ch: char): Option<State> {
    if IsDigit(ch) then
      var val := s.current * 10 + DigitValue(ch);
      if (s.digit && s.current == 0) || val > 255 then None
      else Some(State(s.done, val, true))
    else if ch == '.' && s.digit && |s.done| < 3 then Some(State(s.done + [s.current], 0, false))
    else None
  }

  function Scan(str: string): Option<State> {
    if str == [] then Some(State([], 0, false))
    else
      match Scan(str[..|str| - 1])
      case None => None
      case Some(s) => Step(s, str[|str| - 1])
  }

  /** A state is reached by exactly one text. */
  lemma {:induction false} ScanSound(str: string)
    requires Scan(str).Some?
    ensures Reachable(Scan(str).value) && Read(Scan(str).value) == str
  {
    hide Decimal, Dotted;
    if str == [] {
      DottedNone();
    } else {
      var n := |str| - 1;
      ScanSound(str[..n]);
      var s := Scan(str[..n]).value;
      assert str == str[..n] + [str[n]];
      if IsDigit(str[n]) {
        DecimalStep(s.current, DigitValue(str[n]), s.digit);
      } else {
        DottedMore(s.done, s.current);
      }
    }
  }

  lemma DottedNone()
    ensures Dotted([]) == []
  {}

  lemma DecimalStep(n: nat, d: nat, digit: bool)
    requires d < 10 && (digit ==> n > 0) && (!digit ==> n == 0)
    ensures Decimal(n * 10 + d) == (if digit then Decimal(n) else []) + [Digit(d)]
  {}

  /** The text of a state leads to it. */
  lemma {:induction false} ScanComplete(s: State)
    requires Reachable(s)
    ensures Scan(Read(s)) == Some(s)
    decreases |Read(s)|
  {
    hide Scan, Decimal, Dotted;
    DottedNone();
    if s.digit {
      var n, d: nat := s.current / 10, s.current % 10;
      var before := if s.current < 10 then State(s.done, 0, false) else State(s.done, n, true);
      DecimalStep(before.current, d, before.digit);
      assert Read(s) == Read(before) + [Digit(d)];
      ScanComplete(before);
      ScanMore(Read(before), Digit(d));
      assert DigitValue(Digit(d)) == d;
    } else if s.done != [] {
      var n := |s.done| - 1;
      var before := State(s.done[..n], s.done[n], true);
      DottedMore(s.done[..n], s.done[n]);
      assert s.done[..n] + [s.done[n]] == s.done;
      assert Read(s) == Read(before) + ".";
      ScanComplete(before);
      ScanMore(Read(before), '.');
    } else {
      assert Read(s) == [];
      ScanNone();
    }
  }

  lemma ScanNone()
    ensures Scan([]) == Some(State([], 0, false))
  {}

  lemma ScanMore(str: string, ch: char)
    ensures Scan(str + [ch]) == match Scan(str) case None => None case Some(s) => Step(s, ch)
  {
    assert (str + [ch])[..|str|] == str;
  }

  /** Once refused, always refused. */
  lemma {:induction false} ScanStops(str: string, k: nat)
    requires k <= |str| && Scan(str[..k]) == None
    ensures Scan(str) == None
    decreases |str|
  {
    if k < |str| {
      assert str[..|str| - 1][..k] == str[..k];
      ScanStops(str[..|str| - 1], k);
    } else {
      assert str[..k] == str;
    }
  }

  /** The addresses whose text a string is. */
  lemma ReadsOne(str: string, a: seq<byte>)
    requires |a| == 4
    ensures str == Printed(a) <==> Scan(str) == Some(State(a[..3], a[3], true))
  {
    hide Scan, Decimal, Dotted;
    ScanComplete(State(a[..3], a[3], true));
    if Scan(str) == Some(State(a[..3], a[3], true)) {
      ScanSound(str);
    }
  }

  /** Nothing but a complete address is one's text. */
  lemma ReadsNone(str: string)
    requires match Scan(str) case None => true case Some(s) => |s.done| + (if s.digit then 1 else 0) != 4
    ensures forall a: seq<byte> :: |a| == 4 ==> str != Printed(a)
  {
    hide Scan, Decimal, Dotted, Printed;
    forall a: seq<byte> | |a| == 4 ensures str != Printed(a) {
      ReadsOne(str, a);
    }
  }

  /** fnet_inet_ntop_ip4; FNET_IP4_ADDR_STR_SIZE is 16. */
  method Print(a: seq<byte>, strLen: nat) returns (r: Option<string>)
    requires |a| == 4
    ensures r.Some? <==> |Printed(a)| < strLen
    ensures r.Some? ==> r.value == Printed(a)
    ensures strLen >= 16 ==> r.Some?
  {
    hide Printed;
    PrintedLength(a);
    var text := Printed(a);
    if |text| <= 0 || |text| >= strLen {
      return None;
    }
    r := Some(text);
  }

  /** fnet_inet_pton_ip4: accepts exactly the texts that addresses print as. */
  method Parse(str: Text) returns (r: Option<seq<byte>>)
    ensures r.Some? ==> |r.value| == 4 && str == Printed(r.value)
    ensures r.None? ==> forall a: seq<byte> :: |a| == 4 ==> str != Printed(a)
  {
    hide Scan, Decimal, Dotted, Printed;
    var tmp := new byte[4];
    var tp, isDigit, octets := 0, false, 0;
    tmp[0] := 0;
    var k := 0;
    ScanNone();
    assert str[..0] == [] && tmp[..0] == [];
    while k < |str|
      invariant 0 <= k <= |str| && 0 <= tp < 4 && octets == tp + if isDigit then 1 else 0
      invariant Scan(str[..k]) == Some(State(tmp[..tp], tmp[tp], isDigit))
    {
      var ch := str[k];
      k := k + 1;
      assert str[..k] == str[..k - 1] + [ch];
      ScanMore(str[..k - 1], ch);
      ghost var before := State(tmp[..tp], tmp[tp], isDigit);
      if '0' <= ch <= '9' {
        var val := tmp[tp] * 10 + DigitValue(ch);
        if (isDigit && tmp[tp] == 0) || val > 255 {
          Refused(str, k);
          return None;
        }
        tmp[tp] := val;
        if !isDigit {
          octets := octets + 1;
          assert octets <= 4;
          isDigit := true;
        }
        assert tmp[..tp] == before.done;
      } else if ch == '.' && isDigit {
        if octets == 4 {
          Refused(str, k);
          return None;
        }
        tp := tp + 1;
        tmp[tp] := 0;
        isDigit := false;
        assert tmp[..tp] == before.done + [before.current];
      } else {
        Refused(str, k);
        return None;
      }
    }
    assert str[..k] == str;
    if octets < 4 {
      ReadsNone(str);
      return None;
    }
    assert tmp[..][..3] == tmp[..tp] && tmp[..][3] == tmp[tp];
    ReadsOne(str, tmp[..]);
    r := Some(tmp[..]);
  }

  lemma Refused(str: string, k: nat)
    requires k <= |str| && Scan(str[..k]) == None
    ensures forall a: seq<byte> :: |a| == 4 ==> str != Printed(a)
  {
    hide Scan, Printed;
    ScanStops(str, k);
    ReadsNone(str);
  }

  /** Different addresses print differently. */
  lemma PrintedInjective(a: seq<byte>, b: seq<byte>)
    requires |a| == 4 && |b| == 4 && Printed(a) == Printed(b)
    ensures a == b
  {
    hide Scan, Printed;
    ReadsOne(Printed(a), a);
    ReadsOne(Printed(a), b);
    assert a == a[..3] + [a[3]] && b == b[..3] + [b[3]];
  }
}
